# bAbI question-answering front end, modelled in Dafny

`memory_network_q1.py` trains an end-to-end memory network on task 1 of the
bAbI suite ("single supporting fact"). Before any neural network is involved,
the script turns the bAbI data files into integer tensors:

1. `tokenize` cuts a sentence into words and punctuation marks.
2. `parse_stories` reads the numbered lines of a bAbI file. Statements go onto
   the running story, and a line numbered 1 starts a new story. Each question
   line, with its answer and its supporting-fact ids, yields a
   `(substory, question, answer)` triple. With `only_supporting`, the substory
   is just the supporting facts; otherwise it is every non-empty statement since
   the last line numbered 1.
3. `get_stories` flattens each substory into one token list with
   `reduce(+)`. With a truthy `max_length`, it also drops overly long stories.
4. At module level, the script builds the vocabulary: every token of every
   story, question and answer, de-duplicated and sorted. It also computes
   `vocab_size`, the two maximum lengths, and `word_idx`, which maps
   `vocab[i]` to `i + 1`. Index 0 is reserved for padding.
5. `vectorize_stories`, `vectorize_query` and `vectorize_story` map tokens to
   their indices, pad rows to a fixed length, and turn answers into one-hot
   rows.
6. `get_answer` maps a predicted index back to a word by scanning `word_idx`.

The model follows the script's own structure:

| module | file | models |
|---|---|---|
| `Results` | results.dfy | the exceptions the code can raise, as `Err` values |
| `Text` | text.dfy | `str.strip`, `str.split(' ', 1)`, `str.split('\t')`, `str.split()`, `int()` |
| `Tokenizer` | tokenizer.dfy | `tokenize` |
| `Babi` | babi.dfy | one line of `parse_stories`, the substory, and the loop as a method |
| `BabiLines` | babi_lines.dfy | what the loop computes, stated line by line |
| `Stories` | stories.dfy | `get_stories` after the file is read |
| `Vocabulary` | vocabulary.dfy | vocabulary, `vocab_size`, maxima, `word_idx`, the `get_answer` lookup |
| `Vectorize` | vectorize.dfy | the three vectorize functions |

Each Python exception the code can raise on bad input is an `Err` value:

- a line without a space;
- an id `int()` refuses;
- a question line without exactly three tab-separated fields;
- a supporting id that is not an integer, or is out of range;
- `reduce` over an empty substory;
- adding a token list to the placeholder string `''`;
- `max()` of nothing;
- an unknown word;
- an answer index outside the one-hot row.

The Python 2 semantics the script relies on are written out explicitly:

- `re.split` does not split on empty matches.
- `\w` means `[A-Za-z0-9_]`.
- The whitespace set is the one `strip`, `split()` and `int()` use; `int()` also skips whitespace between a sign and the digits.
- Negative list indices wrap.
- `'' + ''` is `''`.
- `dict()` built from pairs keeps the last value written for a key.

The loops of the source that update variables are methods with loop invariants:

- `Babi.ParseStories`: the loop over the lines in `parse_stories`
- `Vectorize.VectorizeStories`: the loop over the examples in `vectorize_stories`
- `Vectorize.VectorizeStory`: the loop over the sentences in `vectorize_story`
- `Vocabulary.Lookup`: the loop over `word_idx.items()` that looks up the answer

`Vectorize.OneHot` is a method too, without a loop: it allocates a zero array
and sets one entry in place, as `np.zeros` followed by `y[index] = 1` does.
The loop that builds `vocab` by repeated set union is modelled as a fold,
`Vocabulary.BuildVocab` over `Vocabulary.InsertAll`, because only its final
value is used.

Each method is proved equal to a specification function, or, for `Lookup`, to
the relation `LookupResult`, and the properties are proved about those
functions. Comprehensions and expression code are
functions.

`pad_sequences` comes from Keras, and its source is not part of this model.
It is modelled with the Keras defaults the script relies on, because it passes
only `maxlen`:

- `padding='pre'`: zeros go in front;
- `truncating='pre'`: a long row keeps its last `maxlen` entries;
- `value=0`.

## Model

| member | source | states |
|---|---|---|
| Tokenizer.TokenizeSpec | memory_network_q1.py:34-39 | no token is empty, no token starts or ends with whitespace, and every token lies within one character class (word or non-word) |
| Tokenizer.TokenizeDoctest | memory_network_q1.py:36-37 | the docstring example holds: `'Bob dropped the apple. Where is the apple?'` tokenizes to `Bob`, `dropped`, `the`, `apple`, `.`, `Where`, `is`, `the`, `apple`, `?` |
| Tokenizer.TokenizeAppend | memory_network_q1.py:39 | where the character class changes between two texts, tokenizing their concatenation gives the tokens of the first followed by those of the second |
| Tokenizer.TokenizeJoinWords | memory_network_q1.py:39 | words of word characters joined by single spaces tokenize back to exactly those words |
| Tokenizer.TokenizeKeepsNonSpace | memory_network_q1.py:34-39 | tokenizing loses only whitespace: the tokens hold exactly the sentence's non-whitespace characters, in order |
| Tokenizer.RunsSpec | memory_network_q1.py:39 | the split gives non-empty runs, each in one class, consecutive runs in different classes, and none exactly when the sentence is empty |
| Tokenizer.RunsConcat | memory_network_q1.py:39 | the runs concatenate back to the sentence |
| Tokenizer.RunsOfConcat | memory_network_q1.py:39 | any alternating decomposition is the split of its concatenation, so the split is unique |
| Text.StripSpec | memory_network_q1.py:39 | `strip()` returns a slice of the input that neither starts nor ends with whitespace, and cuts only whitespace on both sides |
| Text.StripKeepsNonSpace | memory_network_q1.py:39 | `strip()` drops whitespace only |
| Text.SplitFirstSpec | memory_network_q1.py:51 | `split(' ', 1)` fails exactly when there is no space; otherwise the head, a space and the rest rebuild the line, and the head has no space |
| Text.SplitAllSpec | memory_network_q1.py:56 | `split('\t')` gives one more field than there are tabs, no field holds a tab, and joining them with tabs rebuilds the text |
| Text.SplitWhitespaceSpec | memory_network_q1.py:61 | `split()` gives non-empty, whitespace-free words that concatenate to the text with its whitespace removed |
| Text.SplitJoinWords | memory_network_q1.py:61 | `split()` cuts exactly at the whitespace: non-empty, whitespace-free words joined by single spaces split back into the same words |
| Text.ParseIntShowNat | memory_network_q1.py:52 | `int()` reads back the decimal form of every natural number |
| Text.ParseIntShowNegative | memory_network_q1.py:52 | `int()` reads back `-` followed by a decimal form as the negative number |
| Text.ParseIntDigits | memory_network_q1.py:52 | `int()` of a digit string is its decimal value |
| Text.ParseIntRejects | memory_network_q1.py:52 | `int()` raises on a stripped text with a non-digit anywhere from where the digits must begin, that is, after a leading sign and the whitespace that follows it |
| Text.ParseIntSignSpace | memory_network_q1.py:52 | whitespace between the sign and the digits is skipped: `-`, whitespace, then the decimal form of `n` reads as `-n`, and likewise with `+` |
| Text.ParseIntExactly | memory_network_q1.py:52 | `int()` succeeds exactly when the stripped text has at least one character from where the digits must begin and all of them are digits, and its value is then those digits, negated after a leading minus |
| Text.DigitsStartSpec | memory_network_q1.py:52 | only a leading sign and the whitespace after it come before the place the digits must start, and that place holds no whitespace |
| Babi.ParseLineSpec | memory_network_q1.py:50-57 | a line fails with MissingId exactly when it has no space after stripping. It fails with BadId exactly when the head is no integer, and with BadFieldCount exactly when the rest has tabs but not exactly two. Otherwise it is a question holding the tokenized first field and the other two fields, or a statement with its tokenized text |
| Babi.ParseFormattedStatement | memory_network_q1.py:50-70 | a statement written as `<id> <text>` reads back as its id and the tokens of its text |
| Babi.ParseFormattedQuestion | memory_network_q1.py:50-57 | a question written as `<id> <q>\t<a>\t<s>` reads back as its id, the tokens of `q`, and `a` and `s` as written |
| Babi.ParseIntsSpec | memory_network_q1.py:61 | `map(int, ...)` succeeds exactly when every word is an integer, and then holds their values in order |
| Babi.SupportingIdsShowNats | memory_network_q1.py:61 | a supporting field written as decimal ids separated by spaces reads back as exactly those ids, in order |
| Babi.SelectSpec | memory_network_q1.py:62 | `[story[i - 1] for i in ids]` fails with an IndexError exactly when some id is out of range; otherwise entry `k` is the story entry that the `k`-th id names |
| Babi.SelectInRange | memory_network_q1.py:62 | with ids in `1..len(story)`, entry `k` is `story[ids[k] - 1]` |
| Babi.SelectTooLarge | memory_network_q1.py:62 | an id larger than the story is an IndexError |
| Babi.SelectIdZero | memory_network_q1.py:62 | id 0 silently selects the last entry |
| Babi.TruthfulSpec | memory_network_q1.py:65 | `[x for x in story if x]` keeps only true entries, taken from the story, and never more entries than the story has |
| Babi.TruthfulAppend | memory_network_q1.py:65 | the filter distributes over concatenation, so it keeps order |
| Babi.ParseStories | memory_network_q1.py:42-72 | the loop returns exactly `Parsed(lines)`, the fold of one step per line, or the first error |
| Babi.RunErrorStays | memory_network_q1.py:49-72 | the first error ends parsing; later lines do not matter |
| BabiLines.RunMeaning | memory_network_q1.py:47-72 | the loop succeeds exactly when every line reads and every question's substory can be built; its final story and triples are then those the lines describe |
| BabiLines.ParsedMeaning | memory_network_q1.py:47-72 | `parse_stories` emits one triple per question line, in file order, each built from the story in effect at that line |
| BabiLines.ParseAllSpec | memory_network_q1.py:49-52 | reading all lines succeeds exactly when each line reads |
| BabiLines.QuestionPositionsSpec | memory_network_q1.py:55-66 | the question positions are increasing, they are question lines, and every question line is among them |
| BabiLines.ResetIsolates | memory_network_q1.py:53-54 | after a line numbered 1, the story is the one that the lines from it onward give alone |
| BabiLines.ExampleAfterReset | memory_network_q1.py:53-66 | no triple after a line numbered 1 depends on any line before it |
| BabiLines.PlainSubstory | memory_network_q1.py:63-67 | without `only_supporting`, the substory is the non-empty statement sentences since the last reset, in order, with the question placeholders removed |
| BabiLines.SupportingIdsAlign | memory_network_q1.py:59-70 | on numbered stories, the story has one entry per line since the reset (questions included), and supporting id `n` selects the entry of the line numbered `n` |
| BabiLines.SupportingIdTooLarge | memory_network_q1.py:62 | a supporting id beyond the lines since the reset is an IndexError |
| BabiLines.SupportingIdZero | memory_network_q1.py:62-67 | supporting id 0 does not fail; it selects the entry of the line just before the question |
| Stories.FoldPlusSpec | memory_network_q1.py:83 | the `+` fold fails only on a list/string mix; it concatenates all token lists, or stays `''` |
| Stories.FlattenSpec | memory_network_q1.py:83 | flattening succeeds exactly on a non-empty story of only sentences or only placeholders. Otherwise it fails: with EmptyReduce when empty, with MixedConcat when mixed. On success it gives the concatenated tokens or `''` |
| Stories.FlattenPlainSubstory | memory_network_q1.py:65-83 | a substory taken without `only_supporting` flattens exactly when it is non-empty, to the story's tokens in order |
| Stories.GetStoriesFails | memory_network_q1.py:84 | it fails exactly when some substory cannot be flattened, and with the first such error |
| Stories.GetStoriesKeeps | memory_network_q1.py:84 | otherwise it keeps, in order, exactly the examples at the kept positions, flattened, with question and answer unchanged |
| Stories.KeptPositionsSpec | memory_network_q1.py:84 | a position is kept exactly when `not max_length or len(flat) < max_length` holds; kept positions increase |
| Stories.KeepsAllWhenUnbounded | memory_network_q1.py:84 | with `max_length` `None` or 0, nothing is dropped |
| Stories.KeptAreShort | memory_network_q1.py:84 | with a truthy `max_length`, every kept story is shorter than it |
| Stories.GetStoriesOfFails | memory_network_q1.py:82-84 | reading a file fails exactly when parsing or some flattening fails; an empty substory is enough to make it fail |
| Vocabulary.SortedUnique | memory_network_q1.py:163 | a strictly sorted list is determined by its elements, so it is the list `sorted()` returns for the set |
| Vocabulary.LessTotal | memory_network_q1.py:163 | Python's string order is total; with LessIrreflexive and LessTransitive it is a strict total order |
| Vocabulary.InsertSpec | memory_network_q1.py:161-163 | adding a word keeps the list strictly sorted and adds exactly that word |
| Vocabulary.BuildVocabSpec | memory_network_q1.py:160-163 | the vocabulary is built exactly when no flattened story is `''` (otherwise TypeError). It is strictly sorted, hence duplicate-free, and holds exactly the words of the stories, questions and answers |
| Vocabulary.WordIdxSpec | memory_network_q1.py:180 | on a duplicate-free vocabulary, the keys are exactly the vocabulary words; `vocab[i]` maps to `i + 1`; indices lie in `1..len(vocab)`; the map is injective with `len(vocab)` keys |
| Vocabulary.ZeroReserved | memory_network_q1.py:165-180 | no word gets index 0, and `vocab_size` is one more than the number of keys |
| Vocabulary.MaxSpec | memory_network_q1.py:167-168 | `max()` fails exactly on an empty sequence; it bounds every element and is one of them |
| Vocabulary.MaxLensSpec | memory_network_q1.py:167-168 | `story_maxlen` and `query_maxlen` exist exactly when there are examples; each bounds every length and is attained |
| Vocabulary.Lookup | memory_network_q1.py:324-328 | the loop returns a key mapped to the index, or "answer not found" when no key is, whatever the iteration order |
| Vocabulary.LookupDetermined | memory_network_q1.py:324-328 | on this `word_idx`, the result is the unique word with that index; index 0 or an unassigned index gives "answer not found" |
| Vocabulary.LookupInverts | memory_network_q1.py:324-328 | looking up a word's index gives back that word |
| Vectorize.EncodeSpec | memory_network_q1.py:94-95 | `[word_idx[w] for w in ws]` succeeds exactly when all words are known, maps each word to its index, and otherwise raises KeyError at the first unknown word |
| Vectorize.OneHotSpec | memory_network_q1.py:97-98 | the answer row exists exactly for an index numpy accepts; it has the right length, a 1 at the (wrapped) index, and 0 elsewhere |
| Vectorize.OneHot | memory_network_q1.py:97-98 | filling a zero array and setting one entry gives that one-hot row or the IndexError |
| Vectorize.PadSpec | memory_network_q1.py:102-103 | a padded row has length `maxlen`; each position holds 0 in front of the row and otherwise the row entry that lands there |
| Vectorize.PadKeepsShortRow | memory_network_q1.py:102-103 | a row no longer than `maxlen` ends the padded row whole and is preceded only by zeros |
| Vectorize.ZerosOnlyPadding | memory_network_q1.py:96-103 | a row without 0 has zeros in its padded form exactly at the padding positions |
| Vectorize.VectorizeStories | memory_network_q1.py:88-103 | the loop returns exactly `Vectorized(data, ...)` or the first error |
| Vectorize.EncodeExampleSpec | memory_network_q1.py:94-98 | one example encodes exactly when its story words, its query words and its answer are known and the answer's index fits the row |
| Vectorize.EncodeAllSpec | memory_network_q1.py:92-101 | the loop succeeds exactly when every example encodes; then it gives one story row, one query row and one answer row per example, in order |
| Vectorize.VectorizedSpec | memory_network_q1.py:88-103 | vectorizing gives one row of each kind per example. Story rows have length `story_maxlen` and query rows `query_maxlen`, each the padded encoding; answer rows are one-hot |
| Vectorize.OwnVocabularyEncodable | memory_network_q1.py:160-189 | every word of the training and test examples is in the vocabulary built from them |
| Vectorize.AnswerRowOnVocabulary | memory_network_q1.py:97-98 | on this `word_idx`, an answer's row has `vocab_size` entries; it has a single 1 at the answer's position in `vocab` plus one, and 0 at index 0 |
| Vectorize.RowOnVocabulary | memory_network_q1.py:94-102 | words of the vocabulary, no more than `maxlen` of them, are encoded whole at the end of their row, with zeros exactly in the padding |
| Vectorize.VectorizeOwnVocabulary | memory_network_q1.py:88-189 | on the script's own pipeline vectorizing cannot fail: answer rows are one-hot at the answer's index with index 0 unused, and story rows and query rows hold all their word indices, with zeros only as padding, so nothing is truncated at `story_maxlen` or `query_maxlen` |
| Vectorize.VectorizeQuerySpec | memory_network_q1.py:106-113 | a question vectorizes exactly when its tokens are known, into one row of `query_maxlen` entries: zeros in front of the tokens' indices when they fit, otherwise the indices of the last `query_maxlen` tokens |
| Vectorize.VectorizeStory | memory_network_q1.py:114-129 | the loop returns exactly the padded encodings of the sentences, or the first KeyError |
| Vectorize.EncodeSentencesSpec | memory_network_q1.py:119-127 | the sentences encode exactly when all their tokens are known: one row per sentence, in order |

## Left out

- Not modelled, because the neural network is external framework code: the Keras model's definition, `compile`, `fit`, `predict`, and saving and loading the model (memory_network_q1.py:206-283).
- `get_answer`: the `argmax` over the prediction and the returned confidence (:322-323, :330) are left out, because they are numeric framework calls. The lookup takes the index as a parameter.
- Left out as I/O:
  - downloading and opening the archive (:134-141, :157-158);
  - `f.readlines()` (:82);
  - `line.decode('utf-8')` (:50), since lines are modelled as already-decoded strings;
  - the `print` in `vectorize_story` (:118);
  - the demo loop `run_demo` (:292-318);
  - `load_story` (:333-367).
- Tokenizer.Runs: it models `re.split('(\W+)?', s)` only as far as `tokenize` observes it. Python 2 never splits at an empty match, so the captured group always takes part and no `None` piece appears. The only further pieces are empty strings at the two ends, when the sentence begins or ends with a non-word run, and the `if x.strip()` filter drops them. The regex engine itself is not modelled. Python 3.7+, which also splits at empty matches and then raises on `None.strip()`, is not modelled.
- Text.ParseInt: it accepts ASCII digits only. Python 2 `int()` on a unicode string also accepts other Unicode decimal digits.
- Vectorize.VectorizeQuery: in the source it receives a Python 2 byte string from `raw_input`, whose `strip()` removes only space, `\t`, `\n`, `\v`, `\f` and `\r`. The model tokenizes it with the whitespace set of decoded text, which also holds `\x1c`-`\x1f`, `\x85` and `\xa0`. On a query such as `Where is Mary?\xa0` the model strips a character that Python keeps, so it can succeed where Python raises a KeyError.
- Vectorize.VectorizeStory: the same holds for the byte strings it receives from `readlines()` without decoding; the byte whitespace set is not modelled.
- Vectorize.Pad: `pad_sequences` internals are not modelled, only its documented result with the default arguments; Keras is not part of this model. With `maxlen` equal to 0 and a non-empty row, Keras takes `s[-0:]` as the whole row and fails to assign it; the model returns the empty row instead.
- Vectorize: numpy dtypes are not modelled. Index rows are `int32` and answer rows are floats (`0.0`/`1.0`); the model uses integers.
- Vocabulary.Less: it compares strings by `char`, as Python does on a wide build. On a narrow (UTF-16) build, characters outside the Basic Multilingual Plane would compare by code unit.
- Vocabulary.Lookup: the order of `dict.items()` is not modelled. The postcondition allows any key with that index, and LookupDetermined shows the result is unique on the script's own `word_idx`.
