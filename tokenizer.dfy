/** `tokenize` (memory_network_q1.py:34-39): a sentence is cut into alternating
    runs of word and non-word characters, as `re.split('(\W+)?', sent)` does under
    Python 2, and every run is stripped; runs that strip to nothing are dropped. */
module Tokenizer {
  import opened Text

  /** The regex class `\w` under Python 2 without the UNICODE flag: ASCII letters,
      digits and the underscore. `\W` is its complement. */
  predicate IsWordChar(c: char) {
    'a' <= c <= 'z' || 'A' <= c <= 'Z' || '0' <= c <= '9' || c == '_'
  }

  /** Every character of `s` is a word character (`word`) or none is (`!word`). */
  ghost predicate Uniform(s: string, word: bool) {
    forall i :: 0 <= i < |s| ==> IsWordChar(s[i]) == word
  }

  /** Length of the longest prefix of `s` in the class `word`. */
  function RunLength(s: string, word: bool): nat {
    if s == [] || IsWordChar(s[0]) != word then 0 else 1 + RunLength(s[1..], word)
  }

  /** The run ends where the class changes or the text ends. */
  lemma {:induction false} RunLengthSpec(s: string, word: bool)
    ensures RunLength(s, word) <= |s|
    ensures RunLength(s, word) < |s| ==> IsWordChar(s[RunLength(s, word)]) != word
    ensures Uniform(s[..RunLength(s, word)], word)
  {
    if s != [] && IsWordChar(s[0]) == word {
      RunLengthSpec(s[1..], word);
      var n := RunLength(s, word);
      assert s[..n] == [s[0]] + s[1..][..n - 1];
    }
  }

  /** The pieces `re.split('(\W+)?', s)` yields under Python 2 (which never splits
      on an empty match), without the empty strings it adds when `s` starts or
      ends with a non-word run: the maximal runs of `s`. */
  function Runs(s: string): seq<string>
    decreases |s|
  {
    if s == [] then []
    else
      var n := RunLength(s, IsWordChar(s[0]));
      RunLengthSpec(s, IsWordChar(s[0]));
      [s[..n]] + Runs(s[n..])
  }

  /** Each run is non-empty and in a single class, and consecutive runs are in
      different classes. */
  lemma {:induction false} RunsSpec(s: string)
    ensures forall k :: 0 <= k < |Runs(s)| ==> Runs(s)[k] != [] && Uniform(Runs(s)[k], IsWordChar(Runs(s)[k][0]))
    ensures forall k :: 0 <= k < |Runs(s)| - 1 ==> IsWordChar(Runs(s)[k][0]) != IsWordChar(Runs(s)[k + 1][0])
    ensures Runs(s) != [] <==> s != []
    ensures Runs(s) != [] ==> Runs(s)[0][0] == s[0]
    decreases |s|
  {
    if s != [] {
      var n := RunLength(s, IsWordChar(s[0]));
      RunLengthSpec(s, IsWordChar(s[0]));
      RunsSpec(s[n..]);
      assert Runs(s) == [s[..n]] + Runs(s[n..]);
    }
  }

  /** Cutting into runs loses nothing: the runs concatenate back to `s`. */
  lemma {:induction false} RunsConcat(s: string)
    ensures Concat(Runs(s)) == s
    decreases |s|
  {
    if s != [] {
      var n := RunLength(s, IsWordChar(s[0]));
      RunLengthSpec(s, IsWordChar(s[0]));
      RunsConcat(s[n..]);
      ConcatCons(s[..n], Runs(s[n..]));
      assert s == s[..n] + s[n..];
    }
  }

  /** The comprehension `[x.strip() for x in runs if x.strip()]`. */
  function StripAll(runs: seq<string>): (r: seq<string>)
  {
    if runs == [] then []
    else
      var t := Strip(runs[0]);
      (if t == [] then [] else [t]) + StripAll(runs[1..])
  }

  /** Every character of a stripped string comes from the string. */
  lemma StripChars(s: string, j: nat)
    requires j < |Strip(s)|
    ensures exists i :: 0 <= i < |s| && Strip(s)[j] == s[i]
  {
    var r := Strip(s);
    var i := StripStart(s);
    StripSpec(s);
    assert r[j] == s[i + j];
  }

  lemma StripUniform(s: string, word: bool)
    requires Uniform(s, word)
    ensures Uniform(Strip(s), word)
  {
    forall j | 0 <= j < |Strip(s)|
      ensures IsWordChar(Strip(s)[j]) == word
    {
      StripChars(s, j);
    }
  }

  /** `tokenize(sent)`. */
  function Tokenize(sent: string): seq<string> {
    StripAll(Runs(sent))
  }

  /** No token is empty or has whitespace at either end, and each is a run of
      word characters or a stripped run of non-word characters. */
  lemma TokenizeSpec(sent: string)
    ensures forall k :: 0 <= k < |Tokenize(sent)| ==>
              Tokenize(sent)[k] != [] && !IsSpace(Tokenize(sent)[k][0])
              && !IsSpace(Tokenize(sent)[k][|Tokenize(sent)[k]| - 1])
    ensures forall k :: 0 <= k < |Tokenize(sent)| ==>
              Uniform(Tokenize(sent)[k], true) || Uniform(Tokenize(sent)[k], false)
  {
    RunsSpec(sent);
    TokensUniform(Runs(sent));
  }

  lemma {:induction false} TokensUniform(runs: seq<string>)
    requires forall k :: 0 <= k < |runs| ==> runs[k] != [] && Uniform(runs[k], IsWordChar(runs[k][0]))
    ensures forall k :: 0 <= k < |StripAll(runs)| ==>
              Uniform(StripAll(runs)[k], true) || Uniform(StripAll(runs)[k], false)
    ensures forall k :: 0 <= k < |StripAll(runs)| ==>
              StripAll(runs)[k] != [] && !IsSpace(StripAll(runs)[k][0])
              && !IsSpace(StripAll(runs)[k][|StripAll(runs)[k]| - 1])
  {
    TokensOneClass(runs);
    TokensTrimmed(runs);
  }

  lemma {:induction false} TokensOneClass(runs: seq<string>)
    requires forall k :: 0 <= k < |runs| ==> runs[k] != [] && Uniform(runs[k], IsWordChar(runs[k][0]))
    ensures forall k :: 0 <= k < |StripAll(runs)| ==>
              Uniform(StripAll(runs)[k], true) || Uniform(StripAll(runs)[k], false)
  {
    if runs != [] {
      TokensOneClass(runs[1..]);
      StripUniform(runs[0], IsWordChar(runs[0][0]));
    }
  }

  lemma {:induction false} TokensTrimmed(runs: seq<string>)
    ensures forall k :: 0 <= k < |StripAll(runs)| ==>
              StripAll(runs)[k] != [] && !IsSpace(StripAll(runs)[k][0])
              && !IsSpace(StripAll(runs)[k][|StripAll(runs)[k]| - 1])
  {
    if runs != [] {
      TokensTrimmed(runs[1..]);
      StripSpec(runs[0]);
    }
  }

  /** Word-character runs contain no whitespace, so stripping leaves them whole. */
  lemma WordRunKept(w: string)
    requires w != [] && Uniform(w, true)
    ensures Strip(w) == w
  {
    assert IsWordChar(w[0]) && IsWordChar(w[|w| - 1]);
    StripUnchanged(w);
  }

  lemma {:induction false} StripAllKeepsNonSpace(runs: seq<string>)
    ensures RemoveSpaces(Concat(StripAll(runs))) == RemoveSpaces(Concat(runs))
  {
    if runs != [] {
      var x, rest := runs[0], runs[1..];
      assert RemoveSpaces(Concat(StripAll(runs)))
          == RemoveSpaces(x) + RemoveSpaces(Concat(StripAll(rest))) by {
        assert [x] + rest == runs;
        StripAllHead(x, rest);
      }
      assert RemoveSpaces(Concat(runs)) == RemoveSpaces(x) + RemoveSpaces(Concat(rest)) by {
        assert Concat(runs) == x + Concat(rest);
        RemoveSpacesAppend(x, Concat(rest));
      }
      StripAllKeepsNonSpace(rest);
    }
  }

  lemma StripAllHead(x: string, rest: seq<string>)
    ensures RemoveSpaces(Concat(StripAll([x] + rest)))
         == RemoveSpaces(x) + RemoveSpaces(Concat(StripAll(rest)))
  {
    var t := Strip(x);
    StripAllCons(x, rest);
    StripKeepsNonSpace(x);
    if t == [] {
      assert [] + StripAll(rest) == StripAll(rest);
    } else {
      ConcatCons(t, StripAll(rest));
      RemoveSpacesAppend(t, Concat(StripAll(rest)));
    }
  }

  /** Tokenizing drops whitespace and nothing else: the tokens hold exactly the
      non-whitespace characters of the sentence, in order. */
  lemma TokenizeKeepsNonSpace(sent: string)
    ensures RemoveSpaces(Concat(Tokenize(sent))) == RemoveSpaces(sent)
  {
    StripAllKeepsNonSpace(Runs(sent));
    RunsConcat(sent);
  }

  lemma {:induction false} RunLengthExact(s: string, word: bool, m: nat)
    requires m <= |s| && Uniform(s[..m], word) && (m < |s| ==> IsWordChar(s[m]) != word)
    ensures RunLength(s, word) == m
  {
    if m > 0 {
      assert s[..m][0] == s[0];
      assert s[1..][..m - 1] == s[..m][1..];
      RunLengthExact(s[1..], word, m - 1);
    }
  }

  /** `Uniform` as a recursive check, which the verifier can evaluate on a literal. */
  predicate InClass(s: string, word: bool) {
    s == [] || (IsWordChar(s[0]) == word && InClass(s[1..], word))
  }

  lemma {:induction false} InClassUniform(s: string, word: bool)
    requires InClass(s, word)
    ensures Uniform(s, word)
  {
    if s != [] {
      InClassUniform(s[1..], word);
    }
  }

  /** One step of the split: a run of one class followed by text that does not
      continue it. */
  lemma RunsStep(w: string, rest: string, word: bool)
    requires w != [] && InClass(w, word)
    requires rest != [] ==> IsWordChar(rest[0]) != word
    ensures Runs(w + rest) == [w] + Runs(rest)
  {
    InClassUniform(w, word);
    var s := w + rest;
    assert s[0] == w[0] && s[..|w|] == w && s[|w|..] == rest;
    RunLengthExact(s, IsWordChar(w[0]), |w|);
  }

  /** Well-formed run lists: non-empty runs, each in one class, consecutive
      runs in different classes. */
  predicate Alternating(runs: seq<string>) {
    runs == []
    || (runs[0] != [] && InClass(runs[0], IsWordChar(runs[0][0]))
        && (|runs| > 1 ==> runs[1] != [] && IsWordChar(runs[1][0]) != IsWordChar(runs[0][0]))
        && Alternating(runs[1..]))
  }

  /** The split into runs is the only alternating decomposition: cutting the
      concatenation of an alternating run list gives back that list. */
  lemma {:induction false} RunsOfConcat(runs: seq<string>)
    requires Alternating(runs)
    ensures Runs(Concat(runs)) == runs
  {
    if runs != [] {
      var rest := Concat(runs[1..]);
      RunsOfConcat(runs[1..]);
      assert rest != [] ==> rest[0] == runs[1][0] by {
        if rest != [] {
          assert runs[1..] != [];
          ConcatCons(runs[1], runs[2..]);
          assert [runs[1]] + runs[2..] == runs[1..];
        }
      }
      RunsStep(runs[0], rest, IsWordChar(runs[0][0]));
      ConcatCons(runs[0], runs[1..]);
      assert [runs[0]] + runs[1..] == runs;
    }
  }

  lemma StripAllCons(x: string, rest: seq<string>)
    ensures StripAll([x] + rest) == (if Strip(x) == [] then [] else [Strip(x)]) + StripAll(rest)
  {
    assert ([x] + rest)[1..] == rest;
  }

  /** The comprehension distributes over concatenation of run lists. */
  lemma {:induction false} StripAllAppend(a: seq<string>, b: seq<string>)
    ensures StripAll(a + b) == StripAll(a) + StripAll(b)
  {
    if a != [] {
      assert (a + b)[1..] == a[1..] + b;
      StripAllAppend(a[1..], b);
    } else {
      assert a + b == b;
    }
  }

  lemma {:induction false} UniformInClass(s: string, word: bool)
    requires Uniform(s, word)
    ensures InClass(s, word)
  {
    if s != [] {
      assert IsWordChar(s[0]) == word;
      assert forall i :: 0 <= i < |s[1..]| ==> s[1..][i] == s[i + 1];
      UniformInClass(s[1..], word);
    }
  }

  /** The runs of any text form an alternating list. */
  lemma {:induction false} RunsAlternating(s: string)
    ensures Alternating(Runs(s))
    decreases |s|
  {
    if s != [] {
      var word := IsWordChar(s[0]);
      var n := RunLength(s, word);
      RunLengthSpec(s, word);
      RunsAlternating(s[n..]);
      RunsSpec(s[n..]);
      UniformInClass(s[..n], word);
      var runs := Runs(s);
      assert runs == [s[..n]] + Runs(s[n..]);
      assert runs[1..] == Runs(s[n..]);
      assert |runs| > 1 ==> runs[1][0] == s[n];
    }
  }

  /** The last run is in the class of the text's last character. */
  lemma {:induction false} RunsLast(s: string)
    requires s != []
    ensures Runs(s) != [] && Runs(s)[|Runs(s)| - 1] != [] && IsWordChar(Runs(s)[|Runs(s)| - 1][0]) == IsWordChar(s[|s| - 1])
    decreases |s|
  {
    var word := IsWordChar(s[0]);
    var n := RunLength(s, word);
    RunLengthSpec(s, word);
    var runs := Runs(s);
    assert runs == [s[..n]] + Runs(s[n..]);
    if n == |s| {
      assert s[..n] == s;
      assert runs == [s] + [];
    } else {
      RunsLast(s[n..]);
      assert runs[|runs| - 1] == Runs(s[n..])[|Runs(s[n..])| - 1];
      assert s[n..][|s[n..]| - 1] == s[|s| - 1];
    }
  }

  lemma {:induction false} AlternatingAppend(a: seq<string>, b: seq<string>)
    requires Alternating(a) && Alternating(b)
    requires a != [] && b != [] && a[|a| - 1] != [] && b[0] != [] ==> IsWordChar(a[|a| - 1][0]) != IsWordChar(b[0][0])
    ensures Alternating(a + b)
  {
    if a == [] {
      assert a + b == b;
    } else {
      assert (a + b)[1..] == a[1..] + b;
      AlternatingAppend(a[1..], b);
    }
  }

  /** Cutting into runs distributes over a boundary where the character class
      changes: no run crosses such a boundary. */
  lemma RunsAppend(a: string, b: string)
    requires a != [] && b != [] && IsWordChar(a[|a| - 1]) != IsWordChar(b[0])
    ensures Runs(a + b) == Runs(a) + Runs(b)
  {
    var ra, rb := Runs(a), Runs(b);
    RunsAlternating(a);
    RunsAlternating(b);
    RunsLast(a);
    RunsSpec(b);
    AlternatingAppend(ra, rb);
    RunsConcat(a);
    RunsConcat(b);
    ConcatAppend(ra, rb);
    RunsOfConcat(ra + rb);
  }

  /** Hence tokenizing distributes over such a boundary too. */
  lemma TokenizeAppend(a: string, b: string)
    requires a != [] && b != [] && IsWordChar(a[|a| - 1]) != IsWordChar(b[0])
    ensures Tokenize(a + b) == Tokenize(a) + Tokenize(b)
  {
    RunsAppend(a, b);
    StripAllAppend(Runs(a), Runs(b));
  }

  /** The runs of words joined by single spaces: the words with a `" "` run
      between neighbours. */
  function Spaced(words: seq<string>): (r: seq<string>)
    ensures |r| == if words == [] then 0 else 2 * |words| - 1
  {
    if words == [] then []
    else if |words| == 1 then [words[0]]
    else [words[0]] + ([" "] + Spaced(words[1..]))
  }

  lemma {:induction false} RunsJoinWords(words: seq<string>)
    requires forall k :: 0 <= k < |words| ==> words[k] != [] && InClass(words[k], true)
    ensures Runs(JoinWords(words)) == Spaced(words)
    ensures words != [] ==> JoinWords(words) != [] && JoinWords(words)[0] == words[0][0]
    ensures words != [] ==> IsWordChar(JoinWords(words)[|JoinWords(words)| - 1])
  {
    if words != [] {
      var w := words[0];
      InClassUniform(w, true);
      if |words| > 1 {
        var j := JoinWords(words[1..]);
        RunsJoinWords(words[1..]);
        RunsWordSpace(w, j);
      } else {
        RunsStep(w, [], true);
        assert w + [] == w;
      }
    }
  }

  lemma RunsWordSpace(w: string, j: string)
    requires w != [] && InClass(w, true) && j != [] && IsWordChar(j[0])
    ensures Runs(w + " " + j) == [w] + ([" "] + Runs(j))
    ensures (w + " " + j)[0] == w[0] && (w + " " + j)[|w + " " + j| - 1] == j[|j| - 1]
  {
    assert w + " " + j == w + (" " + j);
    RunsStep(" ", j, false);
    RunsStep(w, " " + j, true);
  }

  lemma {:induction false} StripAllSpaced(words: seq<string>)
    requires forall k :: 0 <= k < |words| ==> words[k] != [] && InClass(words[k], true)
    ensures StripAll(Spaced(words)) == words
  {
    if words != [] {
      var w := words[0];
      InClassUniform(w, true);
      WordRunKept(w);
      if |words| > 1 {
        StripAllSpaced(words[1..]);
        StripAllWordSpace(w, Spaced(words[1..]));
        assert words == [w] + words[1..];
      } else {
        StripAllCons(w, []);
      }
    }
  }

  lemma StripAllWordSpace(w: string, rest: seq<string>)
    requires Strip(w) == w && w != []
    ensures StripAll([w] + ([" "] + rest)) == [w] + StripAll(rest)
  {
    SpaceStrips();
    StripAllCons(" ", rest);
    StripAllCons(w, [" "] + rest);
  }

  /** Words of word characters joined by single spaces tokenize back to the
      words: `tokenize` inverts `' '.join` on such words. */
  lemma TokenizeJoinWords(words: seq<string>)
    requires forall k :: 0 <= k < |words| ==> words[k] != [] && InClass(words[k], true)
    ensures Tokenize(JoinWords(words)) == words
  {
    RunsJoinWords(words);
    StripAllSpaced(words);
  }

  lemma SpaceStrips()
    ensures Strip(" ") == []
  {
    assert " "[1..] == [];
    assert TrimLeft(" ") == [];
  }

  /** A text ending in a word character, then a run of punctuation. */
  lemma RunsThenPunct(t: string, q: string)
    requires t != [] && IsWordChar(t[|t| - 1])
    requires q != [] && InClass(q, false)
    ensures Runs(t + q) == Runs(t) + [q]
  {
    RunsStep(q, [], false);
    assert q + [] == q;
    RunsAppend(t, q);
  }

  /** Four pieces whose classes alternate at each boundary are cut apart at
      those boundaries, the second and fourth being single runs. */
  lemma RunsFour(ja: string, p: string, jb: string, q: string)
    requires ja != [] && IsWordChar(ja[|ja| - 1])
    requires jb != [] && IsWordChar(jb[0]) && IsWordChar(jb[|jb| - 1])
    requires p != [] && InClass(p, false) && q != [] && InClass(q, false)
    ensures Runs(ja + (p + (jb + q))) == Runs(ja) + ([p] + (Runs(jb) + [q]))
  {
    var rest := p + (jb + q);
    RunsThenPunct(jb, q);
    RunsStep(p, jb + q, false);
    assert rest[0] == p[0] && !IsWordChar(p[0]);
    RunsAppend(ja, rest);
  }

  lemma StripAllThen(xs: seq<string>, q: string)
    requires Strip(q) != []
    ensures StripAll(xs + [q]) == StripAll(xs) + [Strip(q)]
  {
    StripAllCons(q, []);
    StripAllAppend(xs, [q]);
  }

  lemma StripAllClauses(a: seq<string>, p: string, b: seq<string>, q: string)
    requires forall k :: 0 <= k < |a| ==> a[k] != [] && InClass(a[k], true)
    requires forall k :: 0 <= k < |b| ==> b[k] != [] && InClass(b[k], true)
    requires Strip(p) != [] && Strip(q) != []
    ensures StripAll(Spaced(a) + ([p] + (Spaced(b) + [q]))) == a + ([Strip(p)] + (b + [Strip(q)]))
  {
    var tail := Spaced(b) + [q];
    StripAllSpaced(b);
    StripAllThen(Spaced(b), q);
    StripAllCons(p, tail);
    StripAllSpaced(a);
    StripAllAppend(Spaced(a), [p] + tail);
  }

  /** Two clauses of words, each followed by a run of punctuation, tokenize to
      the words and the stripped punctuation. */
  lemma TokenizeClauses(a: seq<string>, p: string, b: seq<string>, q: string)
    requires a != [] && b != []
    requires forall k :: 0 <= k < |a| ==> a[k] != [] && InClass(a[k], true)
    requires forall k :: 0 <= k < |b| ==> b[k] != [] && InClass(b[k], true)
    requires p != [] && InClass(p, false) && Strip(p) != []
    requires q != [] && InClass(q, false) && Strip(q) != []
    ensures Tokenize(JoinWords(a) + (p + (JoinWords(b) + q))) == a + ([Strip(p)] + (b + [Strip(q)]))
  {
    RunsJoinWords(a);
    RunsJoinWords(b);
    RunsFour(JoinWords(a), p, JoinWords(b), q);
    StripAllClauses(a, p, b, q);
  }

  /** The example of the `tokenize` docstring. */
  lemma TokenizeDoctest()
    ensures Tokenize("Bob dropped the apple. Where is the apple?")
         == ["Bob", "dropped", "the", "apple", ".", "Where", "is", "the", "apple", "?"]
  {
    DoctestText();
    DoctestTokens();
  }

  lemma DoctestTokens()
    ensures Tokenize(JoinWords(["Bob", "dropped", "the", "apple"])
                     + (". " + (JoinWords(["Where", "is", "the", "apple"]) + "?")))
         == ["Bob", "dropped", "the", "apple", ".", "Where", "is", "the", "apple", "?"]
  {
    var a, b := ["Bob", "dropped", "the", "apple"], ["Where", "is", "the", "apple"];
    DoctestClasses();
    TokenizeClauses(a, ". ", b, "?");
    DoctestList();
  }

  lemma DoctestList()
    ensures ["Bob", "dropped", "the", "apple"] + (["."] + (["Where", "is", "the", "apple"] + ["?"]))
         == ["Bob", "dropped", "the", "apple", ".", "Where", "is", "the", "apple", "?"]
  {
  }

  lemma DoctestClasses()
    ensures forall k :: 0 <= k < 4 ==>
              (["Bob", "dropped", "the", "apple"][k] != [] && InClass(["Bob", "dropped", "the", "apple"][k], true))
    ensures forall k :: 0 <= k < 4 ==>
              (["Where", "is", "the", "apple"][k] != [] && InClass(["Where", "is", "the", "apple"][k], true))
    ensures InClass(". ", false) && Strip(". ") == "."
    ensures InClass("?", false) && Strip("?") == "?"
  {
    FirstClauseWords();
    SecondClauseWords();
    PeriodKept();
    QuestionKept();
  }

  lemma FirstClauseWords()
    ensures forall k :: 0 <= k < 4 ==>
              (["Bob", "dropped", "the", "apple"][k] != [] && InClass(["Bob", "dropped", "the", "apple"][k], true))
  {
    assert InClass("Bob", true) && InClass("dropped", true);
    assert InClass("the", true) && InClass("apple", true);
  }

  lemma SecondClauseWords()
    ensures forall k :: 0 <= k < 4 ==>
              (["Where", "is", "the", "apple"][k] != [] && InClass(["Where", "is", "the", "apple"][k], true))
  {
    assert InClass("Where", true) && InClass("is", true);
    assert InClass("the", true) && InClass("apple", true);
  }

  lemma DoctestText()
    ensures "Bob dropped the apple. Where is the apple?"
         == JoinWords(["Bob", "dropped", "the", "apple"])
          + (". " + (JoinWords(["Where", "is", "the", "apple"]) + "?"))
  {
    FirstClause();
    SecondClause();
    assert "Bob dropped the apple. Where is the apple?"
        == "Bob dropped the apple" + (". " + ("Where is the apple" + "?"));
  }

  lemma FirstClause()
    ensures JoinWords(["Bob", "dropped", "the", "apple"]) == "Bob dropped the apple"
  {
  }

  lemma SecondClause()
    ensures JoinWords(["Where", "is", "the", "apple"]) == "Where is the apple"
  {
  }

  lemma PeriodKept()
    ensures Strip(". ") == "."
  {
    assert ". "[..1] == ".";
    assert TrimRight(". ") == ".";
  }

  lemma QuestionKept()
    ensures Strip("?") == "?"
  {
    assert TrimRight("?") == "?";
  }
}
