/** `analyze_text` (main.py, lines 37-86) and the dict it returns, whose
    fields are those of `AnalysisResponse` (lines 27-35): blank text is
    rejected, and any other text is described by its word, character,
    sentence and paragraph counts, the average length of its
    punctuation-stripped words and a keyword sentiment label. */
module TextAnalysis {
  import opened PyStr
  import opened Sentiment

  /** The `ValueError("Text cannot be empty")` raised for blank input. */
  datatype AnalysisError = EmptyText

  datatype Result<T> = Ok(value: T) | Err(error: AnalysisError)

  /** The fields of `AnalysisResponse`. `avgWordLength` is the exact
      quotient, before it is rounded to two decimal places. */
  datatype Report = Report(
    originalText: string,
    wordCount: nat,
    characterCount: nat,
    characterCountNoSpaces: nat,
    sentenceCount: nat,
    paragraphCount: nat,
    avgWordLength: real,
    sentimentScore: Label)

  /** The class `[.!?]` of the sentence-splitting expression. */
  predicate IsTerminator(c: char) {
    c == '.' || c == '!' || c == '?'
  }

  /** The characters `.,!?;:` stripped from both ends of each word. */
  predicate IsWordPunct(c: char) {
    c == '.' || c == ',' || c == '!' || c == '?' || c == ';' || c == ':'
  }

  /** The separator paragraphs are split on. */
  const ParagraphBreak: string := "\n\n"

  /** `not s.strip()` and `IsBlank` say the same thing. */
  lemma BlankIffStripEmpty(s: string)
    ensures IsBlank(s) <==> Strip(s, IsSpace) == []
  {
    assert forall i :: 0 <= i < |s| ==> s[i] in s;
  }

  /** `text.split()` */
  function Words(text: string): seq<string> {
    Tokens(text, IsSpace)
  }

  /** `len(text.split())`: the number of maximal runs of non-whitespace
      characters, which is zero exactly for blank text. */
  function WordCount(text: string): (n: nat)
    ensures n == 0 <==> IsBlank(text)
  {
    TokensEmpty(text, IsSpace);
    |Words(text)|
  }

  /** `len(text.replace(' ', ''))`: the space character is the only one not
      counted; tabs, newlines and other whitespace still count. */
  function CharacterCountNoSpaces(text: string): (n: nat)
    ensures n == |text| - Count(text, ' ')
    ensures n <= |text|
  {
    |RemoveAll(text, ' ')|
  }

  /** `len([p for p in pieces if p.strip()])` */
  function CountNonBlank(pieces: seq<string>): nat {
    if pieces == [] then 0
    else (if IsBlank(pieces[0]) then 0 else 1) + CountNonBlank(pieces[1..])
  }

  lemma {:induction false} CountNonBlankAppend(a: seq<string>, b: seq<string>)
    ensures CountNonBlank(a + b) == CountNonBlank(a) + CountNonBlank(b)
  {
    if a != [] {
      assert (a + b)[1..] == a[1..] + b;
      CountNonBlankAppend(a[1..], b);
    } else {
      assert a + b == b;
    }
  }

  /** Empty pieces are blank, so dropping them changes no count. */
  lemma {:induction false} CountNonBlankDropEmpty(pieces: seq<string>)
    ensures CountNonBlank(DropEmpty(pieces)) == CountNonBlank(pieces)
  {
    if pieces != [] {
      CountNonBlankDropEmpty(pieces[1..]);
      var head := if pieces[0] == [] then [] else [pieces[0]];
      CountNonBlankAppend(head, DropEmpty(pieces[1..]));
    }
  }

  /** The count is zero exactly when every piece is blank. */
  lemma {:induction false} CountNonBlankZero(pieces: seq<string>)
    ensures CountNonBlank(pieces) == 0 <==> forall k :: 0 <= k < |pieces| ==> IsBlank(pieces[k])
  {
    if pieces != [] {
      CountNonBlankZero(pieces[1..]);
      assert forall k :: 1 <= k < |pieces| ==> pieces[k] == pieces[1..][k - 1];
    }
  }

  /** `re.split(r'[.!?]+', text.strip())` */
  function Sentences(text: string): seq<string> {
    SplitRuns(Strip(text, IsSpace), IsTerminator)
  }

  /** `sentence_count`: the non-blank pieces of the split are the non-blank
      maximal runs of non-terminators in the stripped text. */
  function SentenceCount(text: string): (n: nat)
    ensures n == CountNonBlank(Tokens(Strip(text, IsSpace), IsTerminator))
  {
    SplitRunsThenDropEmpty(Strip(text, IsSpace), IsTerminator);
    CountNonBlankDropEmpty(Sentences(text));
    CountNonBlank(Sentences(text))
  }

  /** A run of terminators counts as one boundary: doubling a terminator
      leaves the sentences, and so their count, unchanged. */
  lemma TerminatorRunsCollapse(a: string, c: char, d: char, b: string)
    requires IsTerminator(c) && IsTerminator(d)
    ensures SentenceCount(a + [c, d] + b) == SentenceCount(a + [c] + b)
  {
    TerminatorNotSpace(c);
    TerminatorNotSpace(d);
    var cd: string := [c, d];
    assert cd[0] == c && cd[|cd| - 1] == d;
    StripAround(a, cd, b, IsSpace);
    StripAround(a, [c], b, IsSpace);
    DoubledSeparator(LStrip(a, IsSpace), c, d, RStrip(b, IsSpace), IsTerminator);
  }

  /** No terminator is whitespace. */
  lemma TerminatorNotSpace(c: char)
    requires IsTerminator(c)
    ensures !IsSpace(c)
  {
  }

  /** Non-blank text without a terminator is one sentence. */
  lemma NoTerminatorOneSentence(text: string)
    requires !IsBlank(text) && NoneOf(text, IsTerminator)
    ensures SentenceCount(text) == 1
  {
    var s := Strip(text, IsSpace);
    BlankIffStripEmpty(text);
    StripCharsFromText(text, IsSpace);
    assert s != [];
    assert NoneOf(s, IsTerminator);
    TokensOfRun(s, IsTerminator);
    assert s[0] in s && !IsBlank(s);
    var single: seq<string> := [s];
    assert single[1..] == [];
    assert CountNonBlank(single) == 1;
    assert Tokens(Strip(text, IsSpace), IsTerminator) == single;
  }

  /** Text made only of terminators holds no sentence at all. */
  lemma OnlyTerminatorsNoSentence(text: string)
    requires forall c :: c in text ==> IsTerminator(c)
    ensures SentenceCount(text) == 0
  {
    if text != [] {
      assert text[0] in text && text[|text| - 1] in text;
      StripKeeps(text, IsSpace);
    }
    TokensEmpty(Strip(text, IsSpace), IsTerminator);
  }

  /** `text.split('\n\n')` */
  function Paragraphs(text: string): seq<string> {
    SplitOn(text, ParagraphBreak)
  }

  /** Non-blank text has a non-blank paragraph. */
  lemma NonBlankHasParagraph(text: string)
    requires !IsBlank(text)
    ensures CountNonBlank(Paragraphs(text)) >= 1
  {
    var ps := Paragraphs(text);
    CountNonBlankZero(ps);
    JoinSplitOn(text, ParagraphBreak);
    if forall k :: 0 <= k < |ps| ==> IsBlank(ps[k]) {
      BlankJoin(ps, ParagraphBreak);
    }
  }

  /** `paragraph_count`: the non-blank pieces between `"\n\n"` separators,
      or 1 when there are none. It is always at least 1, and for non-blank
      text the fallback never applies. */
  function ParagraphCount(text: string): (n: nat)
    ensures n >= 1
    ensures !IsBlank(text) ==> n == CountNonBlank(Paragraphs(text))
  {
    var found := CountNonBlank(Paragraphs(text));
    assert !IsBlank(text) ==> found >= 1 by {
      if !IsBlank(text) {
        NonBlankHasParagraph(text);
      }
    }
    if found == 0 then 1 else found
  }

  /** Non-blank text without a paragraph break is one paragraph. */
  lemma NoBreakOneParagraph(text: string)
    requires !IsBlank(text) && !Contains(text, ParagraphBreak)
    ensures ParagraphCount(text) == 1
  {
    SplitOnAbsent(text, ParagraphBreak);
    var single: seq<string> := [text];
    assert single[1..] == [];
    assert CountNonBlank(single) == 1;
    assert Paragraphs(text) == single;
  }

  /** `sum(len(word.strip('.,!?;:')) for word in words)`: stripping never
      makes a word longer. */
  function StrippedLength(words: seq<string>): (n: nat)
    ensures n <= TotalLength(words)
  {
    if words == [] then 0
    else |Strip(words[0], IsWordPunct)| + StrippedLength(words[1..])
  }

  /** The numerator of the average is at most `character_count_no_spaces`:
      words hold no whitespace, and stripping only shortens them. */
  lemma StrippedLengthBound(text: string)
    ensures StrippedLength(Words(text)) <= CharacterCountNoSpaces(text)
  {
    TokensKeepContent(text, IsSpace);
    TotalLengthIsConcatLength(Words(text));
    WithoutShorterThanCount(text, IsSpace, ' ');
  }

  /** `total / count if count else 0` computed exactly: the value that,
      times a positive count, gives back the total. */
  function Average(total: nat, count: nat): (avg: real)
    ensures 0.0 <= avg
    ensures count > 0 ==> avg * count as real == total as real
    ensures count == 0 ==> avg == 0.0
  {
    if count > 0 then total as real / count as real else 0.0
  }

  /** A larger total over the same count has a larger average. */
  lemma AverageMonotone(total: nat, bound: nat, count: nat)
    requires total <= bound
    ensures Average(total, count) <= Average(bound, count)
  {
    if count > 0 {
      var c := count as real;
      assert Average(total, count) * c <= Average(bound, count) * c;
    }
  }

  /** The guard `not text or not text.strip()`, as written: it holds
      exactly for blank text. */
  predicate Rejected(text: string)
    ensures Rejected(text) <==> IsBlank(text)
  {
    BlankIffStripEmpty(text);
    text == [] || Strip(text, IsSpace) == []
  }

  /** The report `analyze_text` builds for accepted text: every field is
      tied to the characterisation of its count. `sentimentScore` is the
      `Label` whose `Name()` is the string `sentiment_score` holds. */
  function Describe(text: string): (rep: Report)
    requires !IsBlank(text)
    ensures rep.originalText == text
    ensures rep.characterCount == |text|
    ensures rep.characterCountNoSpaces == |text| - Count(text, ' ') <= rep.characterCount
    ensures rep.wordCount == |Words(text)| >= 1
    ensures rep.sentenceCount == CountNonBlank(Tokens(Strip(text, IsSpace), IsTerminator))
    ensures rep.paragraphCount == CountNonBlank(Paragraphs(text)) >= 1
    ensures rep.avgWordLength == Average(StrippedLength(Words(text)), rep.wordCount)
    ensures rep.sentimentScore == Score(text)
  {
    var words := WordCount(text);
    Report(
      originalText := text,
      wordCount := words,
      characterCount := |text|,
      characterCountNoSpaces := CharacterCountNoSpaces(text),
      sentenceCount := SentenceCount(text),
      paragraphCount := ParagraphCount(text),
      avgWordLength := Average(StrippedLength(Words(text)), words),
      sentimentScore := Score(text))
  }

  /** `analyze_text`: blank text is rejected, and otherwise every field of
      the report is filled. */
  function Analyze(text: string): (r: Result<Report>)
    ensures r.Err? <==> IsBlank(text)
    ensures r.Err? ==> r.error == EmptyText
    ensures r.Ok? ==>
      && r.value.originalText == text
      && r.value.characterCount == |text|
      && r.value.characterCountNoSpaces == |text| - Count(text, ' ') <= r.value.characterCount
      && r.value.wordCount == |Words(text)| >= 1
      && r.value.sentenceCount == CountNonBlank(Tokens(Strip(text, IsSpace), IsTerminator))
      && r.value.paragraphCount == CountNonBlank(Paragraphs(text)) >= 1
      && r.value.avgWordLength == Average(StrippedLength(Words(text)), r.value.wordCount)
      && r.value.sentimentScore == Score(text)
  {
    if Rejected(text) then Err(EmptyText) else Ok(Describe(text))
  }

  /** The average word length is at most `character_count_no_spaces` per
      word. */
  lemma AvgWordLengthBound(text: string)
    requires !IsBlank(text)
    ensures Analyze(text).Ok?
    ensures Analyze(text).value.avgWordLength
         <= Average(Analyze(text).value.characterCountNoSpaces, Analyze(text).value.wordCount)
  {
    StrippedLengthBound(text);
    AverageMonotone(StrippedLength(Words(text)), CharacterCountNoSpaces(text), WordCount(text));
  }
}
