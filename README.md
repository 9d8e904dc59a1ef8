# Insight-Agent text analysis, in Dafny

Insight-Agent is a small web service that analyses customer feedback.
Its one piece of real logic is `analyze_text` (main.py). It takes a string
and does one of two things:

- it rejects blank text, or
- it returns a dict with the fields of `AnalysisResponse`.

The dict holds the text itself and its word, character, sentence and
paragraph counts. It also holds the average length of the words once
punctuation is stripped, and a keyword-based sentiment label
(`positive`, `negative` or `neutral`).

This project models `analyze_text` as pure Dafny functions and proves what
each field means. It is split into four modules:

- `PyStr` (pystr.dfy) models the Python `str` operations the analyser uses:
  - `split()` as `Tokens` with `IsSpace`
  - `split(sep)` as `SplitOn`
  - `strip()` and `strip(chars)` as `Strip`
  - `replace(' ', '')` as `RemoveAll`
  - `lower()` as `Lower`
  - `k in s` as `Contains`
  - `re.split('[.!?]+', s)` as `SplitRuns`

  It proves the laws the analyser relies on. Splitting on whitespace
  gives the maximal runs of non-whitespace. Splitting then joining is the
  identity. Lower-casing commutes with splitting.
- `Sentiment` (sentiment.dfy) models the two keyword lists, the hit counts
  and the three-way decision.
- `TextAnalysis` (analysis.dfy) models the `Report` record and `Analyze`
  itself. `Analyze` returns `Err(EmptyText)` for blank text, which is
  where Python raises `ValueError`.
- `AnalysisExamples` (cases.dfy) proves what `analyze_text` returns on
  the inputs exercised in test_app.py. It also covers four inputs the
  tests do not exercise:
  - `"badge"`
  - `"!!!"`
  - a text with a tab
  - a text with a blank-line paragraph break

The model follows the code as written, including where it departs from
what the field names suggest:

- Empty and whitespace-only text is rejected. No report is produced.
- `characterCountNoSpaces` removes only the space character. Tabs and
  newlines still count.
- The sentiment hit count is the number of distinct keywords that occur
  as substrings of the lower-cased text. It is not a number of
  occurrences, and it is not a whole-word match, so `"badge"` reads as
  negative.
- The sentence count may be 0, for instance for `"!!!"`.
- The average word length strips `.,!?;:` from both ends of each word
  before measuring it.

## Model

| member | source | states |
|---|---|---|
| TextAnalysis.Analyze | main.py:37-86 | The result is an error exactly when the text is blank, and the error is `EmptyText`. Otherwise it is a `Report`, the datatype of the `AnalysisResponse` fields (main.py:27-35), and the report echoes the text. `characterCount` is its length and `characterCountNoSpaces` is the length minus the spaces, never more. `wordCount` is the number of whitespace-separated words, at least 1. `sentenceCount` is the number of non-blank runs between terminators of the stripped text. `paragraphCount` is the number of non-blank `"\n\n"`-separated pieces, at least 1. `avgWordLength` is the stripped-word total over the word count. `sentimentScore` is the keyword score. |
| TextAnalysis.Describe | main.py:44-86 | For non-blank text, the `Report` fields are tied one by one to their characterisations: the text itself, its length, its length minus the spaces, at least one word, the non-blank terminator-separated runs of the stripped text, at least one non-blank paragraph, the stripped-word average and the keyword score. |
| TextAnalysis.BlankIffStripEmpty | main.py:41-42 | The guard `not text.strip()` holds exactly when every character is whitespace. |
| TextAnalysis.Rejected | main.py:41-42 | The guard as written holds exactly for blank text. |
| TextAnalysis.WordCount | main.py:45 | The word count, the length of `Words` (`text.split()`), is zero exactly for blank text. |
| TextAnalysis.CharacterCountNoSpaces | main.py:47 | Removing `' '` loses exactly the number of space characters. The result is at most the full length. |
| PyStr.RemoveAll | main.py:47 | `replace(c, '')` leaves no `c`. It shortens the text by the count of `c` and keeps the count of every other character, so tabs and newlines stay. |
| TextAnalysis.SentenceCount | main.py:50-51 | Counting the non-blank pieces of `Sentences`, the regular-expression split of main.py:50, is counting the non-blank maximal runs of non-terminators in the stripped text. |
| PyStr.SplitRuns | main.py:50 | The split on `[.!?]+` yields at least one piece, and no piece contains a terminator. |
| PyStr.SplitRunsThenDropEmpty | main.py:50-51 | The regular-expression split with its empty pieces dropped equals the maximal-run split. |
| TextAnalysis.CountNonBlankZero | main.py:50-56 | `CountNonBlank`, the length of the `if s.strip()` and `if p.strip()` filtered lists, is zero exactly when every piece is blank. |
| TextAnalysis.CountNonBlankDropEmpty | main.py:51 | Dropping empty pieces does not change the count of non-blank pieces. |
| TextAnalysis.TerminatorRunsCollapse | main.py:50-51 | Doubling a terminator anywhere leaves the sentence count unchanged, because a run of terminators is one boundary. |
| TextAnalysis.NoTerminatorOneSentence | main.py:50-51 | Non-blank text without `.`, `!` or `?` is exactly one sentence. |
| TextAnalysis.OnlyTerminatorsNoSentence | main.py:50-51 | Text made only of terminators has no sentence. |
| TextAnalysis.ParagraphCount | main.py:54-56 | The paragraph count is at least 1. For non-blank text the fallback never fires, and the count is the number of non-blank pieces of `Paragraphs` (`text.split('\n\n')`). |
| TextAnalysis.NonBlankHasParagraph | main.py:54-56 | Non-blank text always has a non-blank paragraph. |
| TextAnalysis.NoBreakOneParagraph | main.py:54-56 | Non-blank text without `"\n\n"` is one paragraph. |
| PyStr.SplitOn | main.py:54 | `s.split(sep)` yields at least one piece, and its first piece is a prefix of `s`. |
| PyStr.JoinSplitOn | main.py:54 | Joining the pieces of `s.split(sep)` with `sep` gives back `s`. |
| PyStr.SplitOnLeftmost | main.py:54 | When `s.split(sep)` cuts, its first piece followed by `sep` is a prefix of `s`, and `sep` occurs at no earlier position. |
| PyStr.SplitOnAbsent | main.py:54 | Without an occurrence of `sep`, `s.split(sep)` is `[s]`. |
| PyStr.SplitOnPiecesAvoidSeparator | main.py:54 | No piece of `s.split(sep)` contains `sep`. |
| TextAnalysis.StrippedLength | main.py:60 | The sum of the stripped word lengths is at most the total length of the words. |
| TextAnalysis.StrippedLengthBound | main.py:47-60 | The average's numerator is at most `character_count_no_spaces`. |
| TextAnalysis.Average | main.py:60 | With a positive count, the average times the count is the total. With a zero count it is 0. It is never negative. |
| TextAnalysis.AverageMonotone | main.py:60 | A larger total over the same count gives a larger average. |
| TextAnalysis.AvgWordLengthBound | main.py:41-60 | Non-blank text is accepted, and its `avgWordLength` is at most `characterCountNoSpaces` per word. |
| PyStr.Strip | main.py:41 | `strip` yields an empty string exactly when every character is dropped. Otherwise the result neither starts nor ends with a dropped character. |
| PyStr.LStrip | main.py:41 | The result is a suffix of the input. Every character cut off is dropped, and the result does not start with a dropped character. |
| PyStr.RStrip | main.py:41 | The result is a prefix of the input. Every character cut off is dropped, and the result does not end with a dropped character. |
| PyStr.StripIsSlice | main.py:41 | What `strip` keeps is one contiguous slice of the input, and every character before and after that slice is dropped. |
| PyStr.StripKeeps | main.py:41-60 | A string whose first and last characters are not dropped is unchanged by stripping. This holds for `strip()` on whitespace (lines 41 and 50) and for `strip('.,!?;:')` on words (line 60). |
| PyStr.StripAround | main.py:50 | Stripping text around a middle part whose ends are kept only touches the outer parts. |
| PyStr.Tokens | main.py:45 | Every token of `split()` is non-empty and free of whitespace. |
| PyStr.TokensKeepContent | main.py:45-47 | The tokens, glued back together, are the text with its whitespace removed. |
| PyStr.TokensEmpty | main.py:45 | There are no tokens exactly when every character is whitespace. |
| PyStr.TokensAtSeparator | main.py:45 | The tokens of `a + [c] + b`, for a separator `c`, are those of `a` followed by those of `b`. |
| PyStr.TokensJoin | main.py:45 | Words without separators, joined by one separator, split back into the same words. |
| PyStr.Span | main.py:45 | The leading run has the asked-for property at every index and stops at the first index without it. |
| PyStr.ContainsAt | main.py:67-68 | `k in s`, modelled by `Contains`, holds exactly when `k` starts at some offset of `s`. |
| PyStr.ContainsAround | main.py:67-68 | A keyword that does not contain `c` occurs in `a + [c] + b` exactly when it occurs in `a` or in `b`. |
| PyStr.Lower | main.py:66 | Lower-casing keeps the length and lowers each character. |
| PyStr.LowerIdempotent | main.py:66 | Lower-casing twice is lower-casing once. |
| PyStr.TokensLower | main.py:66-68 | `s.lower().split()` is the lower-cased `s.split()`. |
| Sentiment.Hits | main.py:67-68 | The hit count is bounded by the size of the keyword list: 7 for positive and 6 for negative. |
| Sentiment.HitsCountFoundKeywords | main.py:67-68 | With distinct keywords, the hit count is the number of different keywords found, not a number of occurrences. |
| Sentiment.DistinctKeywordLists | main.py:63-64 | Neither keyword list repeats an entry. |
| Sentiment.HitsGrow | main.py:67-68 | Appending text never loses a hit. |
| Sentiment.Classify | main.py:70-75 | The decision that `Score` applies to the two hit counts of the lower-cased text. The label is positive iff positive hits exceed negative hits, negative iff the reverse, and neutral iff they tie. |
| Sentiment.NamesDistinct | main.py:70-75 | The three labels are reported as three different strings, `positive`, `negative` and `neutral`. |
| Sentiment.ScoreIgnoresCase | main.py:66 | Texts that differ only in letter case get the same label. |
| Sentiment.KeywordInSomeWord | main.py:67-68 | A keyword occurs in the text exactly when it occurs inside one of the text's words, which is a substring match, not a whole-word match. |
| Sentiment.HitsByWords | main.py:67-68 | Counting hits in the text equals counting hits word by word. |
| Sentiment.ScoreByWords | main.py:63-75 | `Score`, the sentiment label of main.py:66-75, is read off the lower-cased words of `text.split()`. |
| AnalysisExamples.BlankRejected | test_app.py:48-60 | `""` and `"   "` are rejected with `EmptyText`. |
| AnalysisExamples.HelloWorld | test_app.py:23-34 | `"Hello world!"` yields 2 words, 12 characters, 11 without spaces and an average word length of 5. |
| AnalysisExamples.Complex | test_app.py:36-46 | `"This is a great product! I love it. Amazing quality."` yields 10 words, 3 sentences and a positive label. |
| AnalysisExamples.TestSentence | test_app.py:70-78 | `"This is a test sentence."` is echoed back and yields 5 words, 24 characters, 1 sentence and a neutral label. |
| AnalysisExamples.Praise | test_app.py:82-84 | `"This is absolutely wonderful and amazing!"` is positive. |
| AnalysisExamples.Complaint | test_app.py:86-88 | `"This is terrible and awful!"` is negative. |
| AnalysisExamples.Plain | test_app.py:90-92 | `"This is a normal sentence."` is neutral. |
| AnalysisExamples.Badge | main.py:66-75 | `"badge"` is accepted and labelled negative, since it contains `"bad"`. |
| AnalysisExamples.Exclamations | main.py:50-51 | `"!!!"` is accepted and has 0 sentences. |
| AnalysisExamples.TabCounted | main.py:46-47 | In `"a\tb c"` only the space is left out: 5 characters, 4 without spaces. |
| AnalysisExamples.TwoParagraphs | main.py:54-56 | `"a\n\nb"` has 2 paragraphs. |

## Left out

- The FastAPI application is not modelled. This covers the `/`, `/health` and `/analyze` handlers, `TextInput` parsing, logging, the uvicorn start-up and the `PORT` environment variable. It is web and I/O plumbing around `analyze_text`.
- The 10,000-character limit and the mapping of errors to HTTP status codes 400 and 500 are not modelled. They belong to the endpoint, not the analyser.
- TextAnalysis.Analyze: `avg_word_length` is kept as the exact quotient, a `real`. Binary floating-point division and `round(avg_word_length, 2)` are not modelled.
- PyStr.Lower: only ASCII letters are lower-cased. Python's full Unicode case mapping is not modelled, including mappings that change a string's length.
- PyStr: strings are sequences of Unicode scalar values. A Python `str` can also hold lone surrogate code points, for example from the JSON body `"\ud800"`, and such strings are not modelled.
- PyStr.IsSpace: the whitespace set is the fixed set of code points for which Python's `str.isspace()` is true. It is taken as a constant, not derived from the Unicode database.
- PyStr.SplitRuns models only the one regular expression the analyser uses, a split on runs of one character class. General regular expressions are not modelled.
