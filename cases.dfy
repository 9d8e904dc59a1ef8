/** The analyzer's documented examples (test_app.py), worked out on the
    model, and a few more that show where the analyzer departs from the
    obvious reading of its field names.

    Each example takes the text as a parameter fixed by its `requires`, and
    the facts about the literal are gathered in small steps: the words of
    the text and of its lower-case form, the keyword hits among those
    words, and the pieces between sentence terminators. */
module AnalysisExamples {
  import opened PyStr
  import opened Sentiment
  import opened TextAnalysis

  // ---------------------------------------------------------------------
  // Words of a literal text
  // ---------------------------------------------------------------------

  /** Printable ASCII other than the space: none of it is whitespace. */
  predicate Visible(w: string) {
    forall c :: c in w ==> '!' <= c <= '~'
  }

  /** A list of non-empty words made of visible characters only. */
  predicate VisibleWords(ws: seq<string>) {
    forall i :: 0 <= i < |ws| ==> ws[i] != [] && Visible(ws[i])
  }

  /** Text whose first character is not whitespace is not blank. */
  lemma VisibleStart(text: string)
    requires text != [] && !IsSpace(text[0])
    ensures !IsBlank(text)
  {
    assert text[0] in text;
  }

  /** The opening words "This is" that most examples share, as written
      and lower-cased. */
  lemma OpeningJoin()
    ensures Join(["This", "is"], " ") == "This is"
    ensures VisibleWords(["This", "is"])
  {
  }

  lemma LowerOpeningJoin()
    ensures Join(["this", "is"], " ") == "this is"
    ensures VisibleWords(["this", "is"])
  {
  }

  /** Words of visible characters joined by single spaces split back into
      those words. */
  lemma WordsOfJoin(ws: seq<string>, text: string)
    requires VisibleWords(ws) && Join(ws, " ") == text
    ensures Words(text) == ws
  {
    forall w | w in ws ensures w != [] && NoneOf(w, IsSpace) {
      var i :| 0 <= i < |ws| && ws[i] == w;
    }
    TokensJoin(ws, ' ', IsSpace);
  }

  /** Joining two non-empty lists is joining each and putting one more
      separator between them. */
  lemma {:induction false} JoinAppend(a: seq<string>, b: seq<string>, sep: string)
    requires a != [] && b != []
    ensures Join(a + b, sep) == Join(a, sep) + (sep + Join(b, sep))
  {
    if |a| == 1 {
      assert (a + b)[1..] == b;
    } else {
      assert (a + b)[1..] == a[1..] + b;
      JoinAppend(a[1..], b, sep);
    }
  }

  lemma VisibleWordsAppend(a: seq<string>, b: seq<string>)
    requires VisibleWords(a) && VisibleWords(b)
    ensures VisibleWords(a + b)
  {
    assert forall i :: |a| <= i < |a + b| ==> (a + b)[i] == b[i - |a|];
  }

  /** Three groups separated by single spaces, grouped to the right. */
  lemma SpacedGroups(text: string, g1: string, g2: string, g3: string)
    requires text == g1 + " " + g2 + " " + g3
    ensures text == g1 + (" " + (g2 + (" " + g3)))
  {
  }

  /** Words of two groups of words joined by a single space. */
  lemma WordsOfTwoGroups(w1: seq<string>, w2: seq<string>, text: string)
    requires VisibleWords(w1) && VisibleWords(w2) && w1 != [] && w2 != []
    requires text == Join(w1, " ") + (" " + Join(w2, " "))
    ensures Words(text) == w1 + w2
  {
    JoinAppend(w1, w2, " ");
    VisibleWordsAppend(w1, w2);
    WordsOfJoin(w1 + w2, text);
  }

  /** Words of three groups of words joined by single spaces. */
  lemma WordsOfThreeGroups(w1: seq<string>, w2: seq<string>, w3: seq<string>, text: string)
    requires VisibleWords(w1) && VisibleWords(w2) && VisibleWords(w3)
    requires w1 != [] && w2 != [] && w3 != []
    requires text == Join(w1, " ") + (" " + (Join(w2, " ") + (" " + Join(w3, " "))))
    ensures Words(text) == w1 + (w2 + w3)
  {
    JoinAppend(w2, w3, " ");
    JoinAppend(w1, w2 + w3, " ");
    VisibleWordsAppend(w2, w3);
    VisibleWordsAppend(w1, w2 + w3);
    WordsOfJoin(w1 + (w2 + w3), text);
  }

  /** Lower-casing a string whose only capital is its first character. */
  lemma LowerCapitalized(c: char, rest: string)
    requires NoCapitals(rest)
    ensures Lower([c] + rest) == [LowerChar(c)] + rest
  {
    LowerAppend([c], rest);
    LowerKeeps(rest);
  }

  // ---------------------------------------------------------------------
  // Keyword search among the words of a text
  // ---------------------------------------------------------------------

  /** No keyword of `keywords` occurs in `w`. */
  predicate Free(w: string, keywords: seq<string>) {
    forall k :: k in keywords ==> !Contains(w, k)
  }

  /** A cheap sufficient reason for `k` not to occur in `w`: `w` is shorter,
      or lacks one of the first three or the last character of `k`. */
  predicate Misses(w: string, k: string) {
    3 <= |k| && (|w| < |k| || k[0] !in w || k[1] !in w || k[2] !in w || k[|k| - 1] !in w)
  }

  /** Every word of `ws` misses every keyword of `keywords`. */
  predicate AllMiss(ws: seq<string>, keywords: seq<string>) {
    forall i, j :: 0 <= i < |ws| && 0 <= j < |keywords| ==> Misses(ws[i], keywords[j])
  }

  /** The opening words "this is" hold no keyword of either list. */
  lemma OpeningMisses()
    ensures AllMiss(["this", "is"], PositiveWords)
    ensures AllMiss(["this", "is"], NegativeWords)
  {
  }

  lemma AllMissAppend(a: seq<string>, b: seq<string>, keywords: seq<string>)
    requires AllMiss(a, keywords) && AllMiss(b, keywords)
    ensures AllMiss(a + b, keywords)
  {
    assert forall i :: |a| <= i < |a + b| ==> (a + b)[i] == b[i - |a|];
  }

  lemma MissesNotContains(w: string, k: string)
    requires Misses(w, k)
    ensures !Contains(w, k)
  {
    if |w| < |k| {
      ShortNotContains(w, k);
    } else if Contains(w, k) {
      ContainsOnlyCharsOf(w, k, k[0]);
      ContainsOnlyCharsOf(w, k, k[1]);
      ContainsOnlyCharsOf(w, k, k[2]);
      ContainsOnlyCharsOf(w, k, k[|k| - 1]);
    }
  }

  lemma {:induction false} NotInWords(k: string, ws: seq<string>)
    requires forall w :: w in ws ==> !Contains(w, k)
    ensures !InSomeWord(k, ws)
  {
    if ws != [] {
      assert ws[0] in ws;
      assert forall w :: w in ws[1..] ==> w in ws;
      NotInWords(k, ws[1..]);
    }
  }

  /** No keyword inside any word: no hits. */
  lemma {:induction false} NoneFound(keywords: seq<string>, ws: seq<string>)
    requires forall w :: w in ws ==> Free(w, keywords)
    ensures HitsInWords(keywords, ws) == 0
  {
    if keywords != [] {
      assert keywords[0] in keywords;
      NotInWords(keywords[0], ws);
      NoneFound(keywords[1..], ws);
    }
  }

  /** Every word misses every keyword: no hits. */
  lemma NoneFoundByMisses(keywords: seq<string>, ws: seq<string>)
    requires AllMiss(ws, keywords)
    ensures HitsInWords(keywords, ws) == 0
  {
    forall w | w in ws ensures Free(w, keywords) {
      var i :| 0 <= i < |ws| && ws[i] == w;
      forall k | k in keywords ensures !Contains(w, k) {
        var j :| 0 <= j < |keywords| && keywords[j] == k;
        MissesNotContains(w, k);
      }
    }
    NoneFound(keywords, ws);
  }

  lemma {:induction false} InWords(k: string, ws: seq<string>, w: string)
    requires w in ws && Contains(w, k)
    ensures InSomeWord(k, ws)
  {
    if ws[0] != w {
      assert w in ws[1..];
      InWords(k, ws[1..], w);
    }
  }

  /** A keyword that begins one of the words is a hit. */
  lemma {:induction false} FoundInWords(keywords: seq<string>, ws: seq<string>, k: string, w: string)
    requires k in keywords && w in ws && k <= w
    ensures HitsInWords(keywords, ws) >= 1
  {
    if keywords[0] == k {
      StartsWithIsPrefix(w, k);
      InWords(k, ws, w);
    } else {
      assert k in keywords[1..];
      FoundInWords(keywords[1..], ws, k, w);
    }
  }

  /** The label of a text, from the words of its lower-case form. */
  lemma ScoreOfLowered(text: string, lowered: string)
    requires Lower(text) == lowered
    ensures Score(text) == Classify(
      HitsInWords(PositiveWords, Words(lowered)), HitsInWords(NegativeWords, Words(lowered)))
  {
    KeywordsAreWords();
    HitsByWords(PositiveWords, lowered);
    HitsByWords(NegativeWords, lowered);
  }

  // ---------------------------------------------------------------------
  // Sentences and stripped words
  // ---------------------------------------------------------------------

  /** A sentence body: non-empty, without terminators, and not blank. The
      conditions are in index form, which is how a literal is checked. */
  predicate Body(s: string) {
    && s != []
    && (forall i :: 0 <= i < |s| ==> !IsTerminator(s[i]))
    && exists i :: 0 <= i < |s| && !IsSpace(s[i])
  }

  lemma BodyFacts(s: string)
    requires Body(s)
    ensures NoneOf(s, IsTerminator) && !IsBlank(s)
  {
    var i :| 0 <= i < |s| && !IsSpace(s[i]);
    assert s[i] in s;
    forall c | c in s ensures !IsTerminator(c) {
      var j :| 0 <= j < |s| && s[j] == c;
    }
  }

  /** A lone sentence body followed by one terminator is one piece. */
  lemma OneSentenceBody(body: string, c: char)
    requires body != [] && NoneOf(body, IsTerminator) && IsTerminator(c)
    ensures Tokens(body + [c], IsTerminator) == [body]
  {
    assert body + [c] == body + [c] + [];
    TokensAtSeparator(body, c, [], IsTerminator);
    TokensOfRun(body, IsTerminator);
  }

  /** A sentence body starting with a visible character, followed by one
      terminator, is one sentence. */
  lemma OneSentence(body: string, c: char)
    requires Body(body) && !IsSpace(body[0]) && IsTerminator(c)
    ensures SentenceCount(body + [c]) == 1
  {
    BodyFacts(body);
    var text := body + [c];
    assert text[0] == body[0] && text[|text| - 1] == c;
    assert !IsSpace(c);
    StripKeeps(text, IsSpace);
    OneSentenceBody(body, c);
    assert CountNonBlank([body][1..]) == 0;
  }

  /** Two sentence bodies, each closed by a terminator, split into
      exactly those bodies. */
  lemma TwoPieces(b: string, c2: char, d: string, c3: char)
    requires b != [] && NoneOf(b, IsTerminator) && IsTerminator(c2)
    requires d != [] && NoneOf(d, IsTerminator) && IsTerminator(c3)
    ensures Tokens(b + [c2] + (d + [c3]), IsTerminator) == [b, d]
  {
    OneSentenceBody(d, c3);
    TokensCons(b, c2, d + [c3], IsTerminator);
  }

  /** Three sentence bodies, each closed by a terminator, split into
      exactly those bodies. */
  lemma ThreePieces(a: string, c1: char, b: string, c2: char, d: string, c3: char)
    requires a != [] && NoneOf(a, IsTerminator) && IsTerminator(c1)
    requires b != [] && NoneOf(b, IsTerminator) && IsTerminator(c2)
    requires d != [] && NoneOf(d, IsTerminator) && IsTerminator(c3)
    ensures Tokens(a + [c1] + (b + [c2] + (d + [c3])), IsTerminator) == [a, b, d]
  {
    TwoPieces(b, c2, d, c3);
    TokensCons(a, c1, b + [c2] + (d + [c3]), IsTerminator);
  }

  lemma CountThree(a: string, b: string, d: string)
    requires !IsBlank(a) && !IsBlank(b) && !IsBlank(d)
    ensures CountNonBlank([a, b, d]) == 3
  {
    assert [d][1..] == [];
    assert CountNonBlank([d]) == 1;
    assert [b, d][1..] == [d];
    assert CountNonBlank([b, d]) == 2;
    assert [a, b, d][1..] == [b, d];
  }

  /** Three sentence bodies in a row, the first starting with a visible
      character, each closed by a terminator, make three sentences. */
  lemma ThreeSentences(a: string, c1: char, b: string, c2: char, d: string, c3: char)
    requires Body(a) && !IsSpace(a[0]) && IsTerminator(c1)
    requires Body(b) && IsTerminator(c2)
    requires Body(d) && IsTerminator(c3)
    ensures SentenceCount(a + [c1] + (b + [c2] + (d + [c3]))) == 3
  {
    BodyFacts(a);
    BodyFacts(b);
    BodyFacts(d);
    var text := a + [c1] + (b + [c2] + (d + [c3]));
    assert text[0] == a[0] && text[|text| - 1] == c3 && !IsSpace(c3);
    StripKeeps(text, IsSpace);
    ThreePieces(a, c1, b, c2, d, c3);
    CountThree(a, b, d);
  }

  lemma StrippedLengthCons(w: string, ws: seq<string>)
    ensures StrippedLength([w] + ws) == |Strip(w, IsWordPunct)| + StrippedLength(ws)
  {
    assert ([w] + ws)[1..] == ws;
  }

  /** A word with one trailing punctuation mark loses exactly that mark. */
  lemma StripOneTrailing(w: string, c: char)
    requires w != [] && !IsWordPunct(w[0]) && !IsWordPunct(w[|w| - 1]) && IsWordPunct(c)
    ensures Strip(w + [c], IsWordPunct) == w
  {
    var s := w + [c];
    assert s[0] == w[0] && s[|s| - 1] == c;
    assert LStrip(s, IsWordPunct) == s;
    assert s[..|s| - 1] == w;
  }

  // ---------------------------------------------------------------------
  // Blank input
  // ---------------------------------------------------------------------

  /** The empty and the whitespace-only request bodies are rejected. */
  lemma BlankRejected()
    ensures Analyze("") == Err(EmptyText)
    ensures Analyze("   ") == Err(EmptyText)
  {
    assert IsBlank("   ");
  }

  // ---------------------------------------------------------------------
  // "Hello world!"
  // ---------------------------------------------------------------------

  lemma HelloWorldJoin()
    ensures Join(["Hello", "world!"], " ") == "Hello world!"
    ensures VisibleWords(["Hello", "world!"])
  {
  }

  lemma HelloStripped(w: string)
    requires w == "Hello"
    ensures |Strip(w, IsWordPunct)| == 5
  {
    StripKeeps(w, IsWordPunct);
  }

  lemma WorldStripped(w: string)
    requires w == "world!"
    ensures |Strip(w, IsWordPunct)| == 5
  {
    assert w == "world" + ['!'];
    StripOneTrailing("world", '!');
  }

  lemma StrippedLengthPair(w1: string, w2: string)
    ensures StrippedLength([w1, w2]) == |Strip(w1, IsWordPunct)| + |Strip(w2, IsWordPunct)|
  {
    StrippedLengthCons(w1, [w2]);
    StrippedLengthCons(w2, []);
    assert [w1, w2] == [w1] + [w2] && [w2] == [w2] + [];
  }

  lemma HelloWorldStripped(w1: string, w2: string)
    requires w1 == "Hello" && w2 == "world!"
    ensures StrippedLength([w1, w2]) == 10
  {
    StrippedLengthPair(w1, w2);
    HelloStripped(w1);
    WorldStripped(w2);
  }

  lemma HelloWorldSpaces(text: string)
    requires text == "Hello world!"
    ensures Count(text, ' ') == 1
  {
    HelloWorldParts(text);
    CountAppend("Hello" + " ", "world!", ' ');
    CountAppend("Hello", " ", ' ');
  }

  lemma HelloWorldParts(text: string)
    requires text == "Hello world!"
    ensures text == "Hello" + " " + "world!"
  {
  }

  /** The basic endpoint example: two words, twelve characters, eleven
      without the one space, and words of five letters on average once
      the `!` is stripped. */
  lemma HelloWorld(text: string)
    requires text == "Hello world!"
    ensures Analyze(text).Ok?
    ensures Analyze(text).value.originalText == "Hello world!"
    ensures Analyze(text).value.wordCount == 2
    ensures Analyze(text).value.characterCount == 12
    ensures Analyze(text).value.characterCountNoSpaces == 11
    ensures Analyze(text).value.avgWordLength == 5.0
  {
    HelloWorldJoin();
    WordsOfJoin(["Hello", "world!"], text);
    HelloWorldStripped("Hello", "world!");
    HelloWorldSpaces(text);
  }

  // ---------------------------------------------------------------------
  // "This is a test sentence."
  // ---------------------------------------------------------------------

  lemma TestSentenceJoinRest()
    ensures Join(["a", "test", "sentence."], " ") == "a test sentence."
    ensures VisibleWords(["a", "test", "sentence."])
  {
  }

  lemma TestSentenceGroups(text: string)
    requires text == "This is a test sentence."
    ensures text == "This is" + (" " + "a test sentence.")
  {
  }

  lemma TestSentenceLowerGroups(lowered: string)
    requires lowered == "this is a test sentence."
    ensures lowered == "this is" + (" " + "a test sentence.")
  {
  }

  /** The words of the text, in two groups. */
  lemma TestSentenceWords(text: string)
    requires text == "This is a test sentence."
    ensures Words(text) == ["This", "is"] + ["a", "test", "sentence."]
  {
    OpeningJoin();
    TestSentenceJoinRest();
    TestSentenceGroups(text);
    WordsOfTwoGroups(["This", "is"], ["a", "test", "sentence."], text);
  }

  /** The words of the lower-case text, in two groups. */
  lemma TestSentenceLowerWords(lowered: string)
    requires lowered == "this is a test sentence."
    ensures Words(lowered) == ["this", "is"] + ["a", "test", "sentence."]
  {
    LowerOpeningJoin();
    TestSentenceJoinRest();
    TestSentenceLowerGroups(lowered);
    WordsOfTwoGroups(["this", "is"], ["a", "test", "sentence."], lowered);
  }

  lemma TestSentenceCapital(text: string)
    requires text == "This is a test sentence."
    ensures text == ['T'] + "his is a test sentence."
    ensures "this is a test sentence." == ['t'] + "his is a test sentence."
  {
  }

  lemma TestSentenceRest(rest: string)
    requires rest == "his is a test sentence."
    ensures NoCapitals(rest)
  {
  }

  lemma TestSentenceLowered(text: string)
    requires text == "This is a test sentence."
    ensures Lower(text) == "this is a test sentence."
  {
    var rest := "his is a test sentence.";
    TestSentenceCapital(text);
    TestSentenceRest(rest);
    LowerSegment(text, 'T', rest, "this is a test sentence.");
  }

  lemma TestSentencePositiveMisses(l2: seq<string>)
    requires l2 == ["a", "test", "sentence."]
    ensures AllMiss(l2, PositiveWords)
  {
  }

  lemma TestSentenceNegativeMisses(l2: seq<string>)
    requires l2 == ["a", "test", "sentence."]
    ensures AllMiss(l2, NegativeWords)
  {
  }

  lemma TestSentenceScore(text: string)
    requires text == "This is a test sentence."
    ensures Score(text) == Neutral
  {
    var lowered := "this is a test sentence.";
    var l1, l2 := ["this", "is"], ["a", "test", "sentence."];
    TestSentenceLowered(text);
    ScoreOfLowered(text, lowered);
    TestSentenceLowerWords(lowered);
    OpeningMisses();
    TestSentencePositiveMisses(l2);
    TestSentenceNegativeMisses(l2);
    AllMissAppend(l1, l2, PositiveWords);
    AllMissAppend(l1, l2, NegativeWords);
    NoneFoundByMisses(PositiveWords, l1 + l2);
    NoneFoundByMisses(NegativeWords, l1 + l2);
  }

  lemma TestSentenceBody(body: string)
    requires body == "This is a test sentence"
    ensures Body(body) && !IsSpace(body[0])
  {
    assert forall i :: 0 <= i < |body| ==> !IsTerminator(body[i]);
    assert !IsSpace(body[0]);
  }

  lemma TestSentenceSentences(text: string)
    requires text == "This is a test sentence."
    ensures SentenceCount(text) == 1
  {
    var body := "This is a test sentence";
    assert text == body + ['.'];
    TestSentenceBody(body);
    OneSentence(body, '.');
  }

  /** The direct call of `analyze_text`: five words, 24 characters, one
      sentence and no keyword of either list. */
  lemma TestSentence(text: string)
    requires text == "This is a test sentence."
    ensures Analyze(text).Ok?
    ensures Analyze(text).value.originalText == "This is a test sentence."
    ensures Analyze(text).value.wordCount == 5
    ensures Analyze(text).value.characterCount == 24
    ensures Analyze(text).value.sentenceCount == 1
    ensures Analyze(text).value.sentimentScore == Neutral
  {
    TestSentenceWords(text);
    TestSentenceSentences(text);
    TestSentenceScore(text);
  }

  // ---------------------------------------------------------------------
  // "This is a great product! I love it. Amazing quality."
  // ---------------------------------------------------------------------

  lemma ComplexJoinFirst()
    ensures Join(["This", "is", "a", "great", "product!"], " ") == "This is a great product!"
  {
    OpeningJoin();
    ComplexJoinProduct();
    JoinAppend(["This", "is"], ["a", "great", "product!"], " ");
    assert ["This", "is"] + ["a", "great", "product!"] == ["This", "is", "a", "great", "product!"];
  }

  lemma ComplexJoinProduct()
    ensures Join(["a", "great", "product!"], " ") == "a great product!"
  {
  }

  lemma ComplexJoinRest()
    ensures Join(["I", "love", "it."], " ") == "I love it."
    ensures Join(["Amazing", "quality."], " ") == "Amazing quality."
  {
  }

  lemma ComplexVisible()
    ensures VisibleWords(["This", "is", "a", "great", "product!"])
    ensures VisibleWords(["I", "love", "it."])
    ensures VisibleWords(["Amazing", "quality."])
  {
  }

  lemma ComplexGroups(text: string)
    requires text == "This is a great product! I love it. Amazing quality."
    ensures text == "This is a great product!" + (" " + ("I love it." + (" " + "Amazing quality.")))
  {
  }

  /** The example's ten words. */
  lemma ComplexWords(text: string)
    requires text == "This is a great product! I love it. Amazing quality."
    ensures |Words(text)| == 10
  {
    ComplexJoinFirst();
    ComplexJoinRest();
    ComplexVisible();
    ComplexGroups(text);
    WordsOfThreeGroups(["This", "is", "a", "great", "product!"], ["I", "love", "it."], ["Amazing", "quality."], text);
  }

  lemma ComplexLowerJoinFirst()
    ensures Join(["this", "is", "a", "great", "product!"], " ") == "this is a great product!"
  {
    LowerOpeningJoin();
    ComplexJoinProduct();
    JoinAppend(["this", "is"], ["a", "great", "product!"], " ");
    assert ["this", "is"] + ["a", "great", "product!"] == ["this", "is", "a", "great", "product!"];
  }

  lemma ComplexLowerJoinRest()
    ensures Join(["i", "love", "it."], " ") == "i love it."
    ensures Join(["amazing", "quality."], " ") == "amazing quality."
  {
  }

  lemma ComplexLowerVisible()
    ensures VisibleWords(["this", "is", "a", "great", "product!"])
    ensures VisibleWords(["i", "love", "it."])
    ensures VisibleWords(["amazing", "quality."])
  {
  }

  lemma ComplexLowerGroups(lowered: string)
    requires lowered == "this is a great product! i love it. amazing quality."
    ensures lowered == "this is a great product!" + (" " + ("i love it." + (" " + "amazing quality.")))
  {
  }

  lemma ComplexSegments(text: string)
    requires text == "This is a great product! I love it. Amazing quality."
    ensures text == "This is a great product! " + ("I love it. " + "Amazing quality.")
  {
  }

  lemma ComplexLowerSegments(lowered: string)
    requires lowered == "this is a great product! i love it. amazing quality."
    ensures lowered == "this is a great product! " + ("i love it. " + "amazing quality.")
  {
  }

  /** Lower-casing three segments one by one. */
  lemma LowerThree(x1: string, x2: string, x3: string, l1: string, l2: string, l3: string)
    requires Lower(x1) == l1 && Lower(x2) == l2 && Lower(x3) == l3
    ensures Lower(x1 + (x2 + x3)) == l1 + (l2 + l3)
  {
    LowerAppend(x1, x2 + x3);
    LowerAppend(x2, x3);
  }

  /** A segment with one leading capital and its lower-case form. */
  lemma LowerSegment(x: string, c: char, rest: string, l: string)
    requires x == [c] + rest && NoCapitals(rest) && l == [LowerChar(c)] + rest
    ensures Lower(x) == l
  {
    LowerCapitalized(c, rest);
  }

  /** The later segments of the short examples are already in lower
      case. */
  lemma LowerCaseSegment(g: string)
    requires g == "absolutely wonderful"
          || g == "and amazing!"
          || g == "terrible"
          || g == "and awful!"
          || g == "a normal"
          || g == "sentence."
    ensures Lower(g) == g
  {
    if g == "absolutely wonderful" {
      assert NoCapitals("absolutely wonderful");
    } else if g == "and amazing!" {
      assert NoCapitals("and amazing!");
    } else if g == "terrible" {
      assert NoCapitals("terrible");
    } else if g == "and awful!" {
      assert NoCapitals("and awful!");
    } else if g == "a normal" {
      assert NoCapitals("a normal");
    } else {
      assert NoCapitals("sentence.");
    }
    LowerKeeps(g);
  }

  /** The shared opening "This is", lower-cased. */
  lemma OpeningLower(g: string)
    requires g == "This is"
    ensures Lower(g) == "this is"
  {
    assert g == ['T'] + "his is" && "this is" == ['t'] + "his is";
    assert NoCapitals("his is");
    LowerSegment(g, 'T', "his is", "this is");
  }

  lemma ComplexFirstSegment(x: string, l: string)
    requires x == "This is a great product! " && l == "this is a great product! "
    ensures Lower(x) == l
  {
    var rest := "his is a great product! ";
    assert x == ['T'] + rest && l == ['t'] + rest;
    assert NoCapitals(rest);
    LowerSegment(x, 'T', rest, l);
  }

  lemma ComplexMiddleSegment(x: string, l: string)
    requires x == "I love it. " && l == "i love it. "
    ensures Lower(x) == l
  {
    var rest := " love it. ";
    assert x == ['I'] + rest && l == ['i'] + rest;
    assert NoCapitals(rest);
    LowerSegment(x, 'I', rest, l);
  }

  lemma ComplexLastSegment(x: string, l: string)
    requires x == "Amazing quality." && l == "amazing quality."
    ensures Lower(x) == l
  {
    var rest := "mazing quality.";
    assert x == ['A'] + rest && l == ['a'] + rest;
    assert NoCapitals(rest);
    LowerSegment(x, 'A', rest, l);
  }

  lemma ComplexLowered(text: string, lowered: string)
    requires text == "This is a great product! I love it. Amazing quality."
    requires lowered == "this is a great product! i love it. amazing quality."
    ensures Lower(text) == lowered
  {
    var x1, x2, x3 := "This is a great product! ", "I love it. ", "Amazing quality.";
    var l1, l2, l3 := "this is a great product! ", "i love it. ", "amazing quality.";
    ComplexSegments(text);
    ComplexLowerSegments(lowered);
    ComplexFirstSegment(x1, l1);
    ComplexMiddleSegment(x2, l2);
    ComplexLastSegment(x3, l3);
    LowerOfSegments(text, lowered, x1, x2, x3, l1, l2, l3);
  }

  /** A text made of three segments lowers to the lowered segments. */
  lemma LowerOfSegments(text: string, lowered: string,
                        x1: string, x2: string, x3: string, l1: string, l2: string, l3: string)
    requires text == x1 + (x2 + x3) && lowered == l1 + (l2 + l3)
    requires Lower(x1) == l1 && Lower(x2) == l2 && Lower(x3) == l3
    ensures Lower(text) == lowered
  {
    LowerThree(x1, x2, x3, l1, l2, l3);
  }

  /** The words of the lower-case text, in three groups. */
  lemma ComplexLowerWords(lowered: string, l1: seq<string>, l2: seq<string>, l3: seq<string>)
    requires lowered == "this is a great product! i love it. amazing quality."
    requires l1 == ["this", "is", "a", "great", "product!"]
    requires l2 == ["i", "love", "it."]
    requires l3 == ["amazing", "quality."]
    ensures Words(lowered) == l1 + (l2 + l3)
  {
    ComplexLowerJoinFirst();
    ComplexLowerJoinRest();
    ComplexLowerVisible();
    ComplexLowerGroups(lowered);
    WordsOfThreeGroups(l1, l2, l3, lowered);
  }

  lemma ComplexNegativeMisses(l1: seq<string>, l2: seq<string>, l3: seq<string>)
    requires l1 == ["this", "is", "a", "great", "product!"]
    requires l2 == ["i", "love", "it."]
    requires l3 == ["amazing", "quality."]
    ensures AllMiss(l1 + (l2 + l3), NegativeWords)
  {
    ComplexNegativeMisses1(l1);
    ComplexNegativeMisses2(l2);
    ComplexNegativeMisses3(l3);
    AllMissAppend(l2, l3, NegativeWords);
    AllMissAppend(l1, l2 + l3, NegativeWords);
  }

  lemma ComplexNegativeMisses1(l1: seq<string>)
    requires l1 == ["this", "is", "a", "great", "product!"]
    ensures AllMiss(l1, NegativeWords)
  {
  }

  lemma ComplexNegativeMisses2(l2: seq<string>)
    requires l2 == ["i", "love", "it."]
    ensures AllMiss(l2, NegativeWords)
  {
  }

  lemma ComplexNegativeMisses3(l3: seq<string>)
    requires l3 == ["amazing", "quality."]
    ensures AllMiss(l3, NegativeWords)
  {
  }

  lemma ComplexHits(l1: seq<string>, l2: seq<string>, l3: seq<string>)
    requires l1 == ["this", "is", "a", "great", "product!"]
    requires l2 == ["i", "love", "it."]
    requires l3 == ["amazing", "quality."]
    ensures HitsInWords(PositiveWords, l1 + (l2 + l3)) >= 1
    ensures HitsInWords(NegativeWords, l1 + (l2 + l3)) == 0
  {
    ComplexNegativeMisses(l1, l2, l3);
    NoneFoundByMisses(NegativeWords, l1 + (l2 + l3));
    assert (l1 + (l2 + l3))[3] == "great";
    FoundInWords(PositiveWords, l1 + (l2 + l3), "great", "great");
  }

  lemma ComplexScore(text: string)
    requires text == "This is a great product! I love it. Amazing quality."
    ensures Score(text) == Positive
  {
    var lowered := "this is a great product! i love it. amazing quality.";
    var l1, l2, l3 := ["this", "is", "a", "great", "product!"], ["i", "love", "it."], ["amazing", "quality."];
    ComplexLowered(text, lowered);
    ScoreOfLowered(text, lowered);
    ComplexLowerWords(lowered, l1, l2, l3);
    ComplexHits(l1, l2, l3);
  }

  lemma ComplexBodies()
    ensures Body("This is a great product") && !IsSpace("This is a great product"[0])
    ensures Body(" I love it")
    ensures Body(" Amazing quality")
  {
    assert !IsSpace(" I love it"[1]);
    assert !IsSpace(" Amazing quality"[1]);
  }

  lemma ComplexPieces(text: string)
    requires text == "This is a great product! I love it. Amazing quality."
    ensures text == "This is a great product" + ['!'] + (" I love it" + ['.'] + (" Amazing quality" + ['.']))
  {
  }

  lemma ComplexSentences(text: string)
    requires text == "This is a great product! I love it. Amazing quality."
    ensures SentenceCount(text) == 3
  {
    ComplexPieces(text);
    ComplexBodies();
    ThreeSentences("This is a great product", '!', " I love it", '.', " Amazing quality", '.');
  }

  /** The complex endpoint example: ten words, three sentences, and a
      positive keyword against no negative one. */
  lemma Complex(text: string)
    requires text == "This is a great product! I love it. Amazing quality."
    ensures Analyze(text).Ok?
    ensures Analyze(text).value.wordCount == 10
    ensures Analyze(text).value.sentenceCount == 3
    ensures Analyze(text).value.sentimentScore == Positive
  {
    ComplexWords(text);
    ComplexSentences(text);
    ComplexScore(text);
  }

  /** Lower-casing a text of three space-separated groups, group by
      group. */
  lemma LowerGroups(text: string, g1: string, g2: string, g3: string, m1: string)
    requires text == g1 + (" " + (g2 + (" " + g3)))
    requires Lower(g1) == m1 && Lower(g2) == g2 && Lower(g3) == g3
    ensures Lower(text) == m1 + (" " + (g2 + (" " + g3)))
  {
    assert Lower(" ") == " ";
    LowerThree(g2, " ", g3, g2, " ", g3);
    LowerThree(g1, " ", g2 + (" " + g3), m1, " ", g2 + (" " + g3));
  }

  // ---------------------------------------------------------------------
  // "This is absolutely wonderful and amazing!"
  // ---------------------------------------------------------------------

  lemma PraiseSpaced(text: string)
    requires text == "This is absolutely wonderful and amazing!"
    ensures text == "This is" + " " + "absolutely wonderful" + " " + "and amazing!"
  {
  }

  lemma PraiseGroups(text: string)
    requires text == "This is absolutely wonderful and amazing!"
    ensures text == "This is" + (" " + ("absolutely wonderful" + (" " + "and amazing!")))
  {
    PraiseSpaced(text);
    SpacedGroups(text, "This is", "absolutely wonderful", "and amazing!");
  }

  lemma PraiseLowered(text: string)
    requires text == "This is absolutely wonderful and amazing!"
    ensures Lower(text) == "this is" + (" " + ("absolutely wonderful" + (" " + "and amazing!")))
  {
    PraiseGroups(text);
    OpeningLower("This is");
    LowerCaseSegment("absolutely wonderful");
    LowerCaseSegment("and amazing!");
    LowerGroups(text, "This is", "absolutely wonderful", "and amazing!", "this is");
  }

  lemma PraiseJoin2()
    ensures Join(["absolutely", "wonderful"], " ") == "absolutely wonderful"
    ensures VisibleWords(["absolutely", "wonderful"])
  {
  }

  lemma PraiseJoin3()
    ensures Join(["and", "amazing!"], " ") == "and amazing!"
    ensures VisibleWords(["and", "amazing!"])
  {
  }

  lemma PraiseWords(lowered: string, l1: seq<string>, l2: seq<string>, l3: seq<string>)
    requires lowered == "this is" + (" " + ("absolutely wonderful" + (" " + "and amazing!")))
    requires l1 == ["this", "is"]
    requires l2 == ["absolutely", "wonderful"]
    requires l3 == ["and", "amazing!"]
    ensures Words(lowered) == l1 + (l2 + l3)
  {
    LowerOpeningJoin();
    PraiseJoin2();
    PraiseJoin3();
    WordsOfThreeGroups(l1, l2, l3, lowered);
  }

  lemma PraiseNegativeMisses2()
    ensures AllMiss(["absolutely", "wonderful"], NegativeWords)
  {
    AbsolutelyNegativeMisses();
    WonderfulNegativeMisses();
    AllMissAppend(["absolutely"], ["wonderful"], NegativeWords);
    assert ["absolutely"] + ["wonderful"] == ["absolutely", "wonderful"];
  }

  lemma AbsolutelyNegativeMisses()
    ensures AllMiss(["absolutely"], NegativeWords)
  {
  }

  lemma WonderfulNegativeMisses()
    ensures AllMiss(["wonderful"], NegativeWords)
  {
  }

  lemma PraiseNegativeMisses3()
    ensures AllMiss(["and", "amazing!"], NegativeWords)
  {
  }

  lemma PraiseHits(l1: seq<string>, l2: seq<string>, l3: seq<string>)
    requires l1 == ["this", "is"]
    requires l2 == ["absolutely", "wonderful"]
    requires l3 == ["and", "amazing!"]
    ensures HitsInWords(PositiveWords, l1 + (l2 + l3)) >= 1
    ensures HitsInWords(NegativeWords, l1 + (l2 + l3)) == 0
  {
    OpeningMisses();
    PraiseNegativeMisses2();
    PraiseNegativeMisses3();
    AllMissAppend(l2, l3, NegativeWords);
    AllMissAppend(l1, l2 + l3, NegativeWords);
    NoneFoundByMisses(NegativeWords, l1 + (l2 + l3));
    assert (l1 + (l2 + l3))[3] == "wonderful";
    FoundInWords(PositiveWords, l1 + (l2 + l3), "wonderful", "wonderful");
  }

  /** One of the sentiment examples: two positive keywords and no negative one. */
  lemma Praise(text: string)
    requires text == "This is absolutely wonderful and amazing!"
    ensures Analyze(text).Ok?
    ensures Analyze(text).value.sentimentScore == Positive
  {
    var l1, l2, l3 := ["this", "is"], ["absolutely", "wonderful"], ["and", "amazing!"];
    assert text[0] == 'T';
    VisibleStart(text);
    PraiseLowered(text);
    ScoreOfLowered(text, Lower(text));
    PraiseWords(Lower(text), l1, l2, l3);
    PraiseHits(l1, l2, l3);
  }

  // ---------------------------------------------------------------------
  // "This is terrible and awful!"
  // ---------------------------------------------------------------------

  lemma ComplaintGroups(text: string)
    requires text == "This is terrible and awful!"
    ensures text == "This is" + (" " + ("terrible" + (" " + "and awful!")))
  {
  }

  lemma ComplaintLowered(text: string)
    requires text == "This is terrible and awful!"
    ensures Lower(text) == "this is" + (" " + ("terrible" + (" " + "and awful!")))
  {
    ComplaintGroups(text);
    OpeningLower("This is");
    LowerCaseSegment("terrible");
    LowerCaseSegment("and awful!");
    LowerGroups(text, "This is", "terrible", "and awful!", "this is");
  }

  lemma ComplaintJoin2()
    ensures Join(["terrible"], " ") == "terrible"
    ensures VisibleWords(["terrible"])
  {
  }

  lemma ComplaintJoin3()
    ensures Join(["and", "awful!"], " ") == "and awful!"
    ensures VisibleWords(["and", "awful!"])
  {
  }

  lemma ComplaintWords(lowered: string, l1: seq<string>, l2: seq<string>, l3: seq<string>)
    requires lowered == "this is" + (" " + ("terrible" + (" " + "and awful!")))
    requires l1 == ["this", "is"]
    requires l2 == ["terrible"]
    requires l3 == ["and", "awful!"]
    ensures Words(lowered) == l1 + (l2 + l3)
  {
    LowerOpeningJoin();
    ComplaintJoin2();
    ComplaintJoin3();
    WordsOfThreeGroups(l1, l2, l3, lowered);
  }

  lemma ComplaintPositiveMisses2()
    ensures AllMiss(["terrible"], PositiveWords)
  {
  }

  lemma ComplaintPositiveMisses3()
    ensures AllMiss(["and", "awful!"], PositiveWords)
  {
  }

  lemma ComplaintHits(l1: seq<string>, l2: seq<string>, l3: seq<string>)
    requires l1 == ["this", "is"]
    requires l2 == ["terrible"]
    requires l3 == ["and", "awful!"]
    ensures HitsInWords(NegativeWords, l1 + (l2 + l3)) >= 1
    ensures HitsInWords(PositiveWords, l1 + (l2 + l3)) == 0
  {
    OpeningMisses();
    ComplaintPositiveMisses2();
    ComplaintPositiveMisses3();
    AllMissAppend(l2, l3, PositiveWords);
    AllMissAppend(l1, l2 + l3, PositiveWords);
    NoneFoundByMisses(PositiveWords, l1 + (l2 + l3));
    assert (l1 + (l2 + l3))[2] == "terrible";
    FoundInWords(NegativeWords, l1 + (l2 + l3), "terrible", "terrible");
  }

  /** One of the sentiment examples: two negative keywords and no positive one. */
  lemma Complaint(text: string)
    requires text == "This is terrible and awful!"
    ensures Analyze(text).Ok?
    ensures Analyze(text).value.sentimentScore == Negative
  {
    var l1, l2, l3 := ["this", "is"], ["terrible"], ["and", "awful!"];
    assert text[0] == 'T';
    VisibleStart(text);
    ComplaintLowered(text);
    ScoreOfLowered(text, Lower(text));
    ComplaintWords(Lower(text), l1, l2, l3);
    ComplaintHits(l1, l2, l3);
  }

  // ---------------------------------------------------------------------
  // "This is a normal sentence."
  // ---------------------------------------------------------------------

  lemma PlainGroups(text: string)
    requires text == "This is a normal sentence."
    ensures text == "This is" + (" " + ("a normal" + (" " + "sentence.")))
  {
  }

  lemma PlainLowered(text: string)
    requires text == "This is a normal sentence."
    ensures Lower(text) == "this is" + (" " + ("a normal" + (" " + "sentence.")))
  {
    PlainGroups(text);
    OpeningLower("This is");
    LowerCaseSegment("a normal");
    LowerCaseSegment("sentence.");
    LowerGroups(text, "This is", "a normal", "sentence.", "this is");
  }

  lemma PlainJoin2()
    ensures Join(["a", "normal"], " ") == "a normal"
    ensures VisibleWords(["a", "normal"])
  {
  }

  lemma PlainJoin3()
    ensures Join(["sentence."], " ") == "sentence."
    ensures VisibleWords(["sentence."])
  {
  }

  lemma PlainWords(lowered: string, l1: seq<string>, l2: seq<string>, l3: seq<string>)
    requires lowered == "this is" + (" " + ("a normal" + (" " + "sentence.")))
    requires l1 == ["this", "is"]
    requires l2 == ["a", "normal"]
    requires l3 == ["sentence."]
    ensures Words(lowered) == l1 + (l2 + l3)
  {
    LowerOpeningJoin();
    PlainJoin2();
    PlainJoin3();
    WordsOfThreeGroups(l1, l2, l3, lowered);
  }

  lemma PlainPositiveMisses2()
    ensures AllMiss(["a", "normal"], PositiveWords)
  {
  }

  lemma PlainPositiveMisses3()
    ensures AllMiss(["sentence."], PositiveWords)
  {
  }

  lemma PlainNegativeMisses2()
    ensures AllMiss(["a", "normal"], NegativeWords)
  {
  }

  lemma PlainNegativeMisses3()
    ensures AllMiss(["sentence."], NegativeWords)
  {
  }

  lemma PlainHits(l1: seq<string>, l2: seq<string>, l3: seq<string>)
    requires l1 == ["this", "is"]
    requires l2 == ["a", "normal"]
    requires l3 == ["sentence."]
    ensures HitsInWords(PositiveWords, l1 + (l2 + l3)) == 0
    ensures HitsInWords(NegativeWords, l1 + (l2 + l3)) == 0
  {
    OpeningMisses();
    PlainPositiveMisses2();
    PlainPositiveMisses3();
    AllMissAppend(l2, l3, PositiveWords);
    AllMissAppend(l1, l2 + l3, PositiveWords);
    NoneFoundByMisses(PositiveWords, l1 + (l2 + l3));
    PlainNegativeMisses2();
    PlainNegativeMisses3();
    AllMissAppend(l2, l3, NegativeWords);
    AllMissAppend(l1, l2 + l3, NegativeWords);
    NoneFoundByMisses(NegativeWords, l1 + (l2 + l3));
  }

  /** One of the sentiment examples: no keyword of either list, a tie at zero. */
  lemma Plain(text: string)
    requires text == "This is a normal sentence."
    ensures Analyze(text).Ok?
    ensures Analyze(text).value.sentimentScore == Neutral
  {
    var l1, l2, l3 := ["this", "is"], ["a", "normal"], ["sentence."];
    assert text[0] == 'T';
    VisibleStart(text);
    PlainLowered(text);
    ScoreOfLowered(text, Lower(text));
    PlainWords(Lower(text), l1, l2, l3);
    PlainHits(l1, l2, l3);
  }

  // ---------------------------------------------------------------------
  // Behaviour the code has and the tests do not exercise
  // ---------------------------------------------------------------------

  lemma BadgeWords(text: string)
    requires text == "badge"
    ensures Words(text) == ["badge"] && Lower(text) == text
  {
    assert NoneOf(text, IsSpace);
    TokensOfRun(text, IsSpace);
    LowerKeeps(text);
  }

  lemma BadgePositiveMisses(ws: seq<string>)
    requires ws == ["badge"]
    ensures AllMiss(ws, PositiveWords)
  {
  }

  /** Keywords are matched as substrings, not as whole words: "badge"
      contains "bad", so it reads as negative. */
  lemma Badge(text: string)
    requires text == "badge"
    ensures Analyze(text).Ok?
    ensures Analyze(text).value.sentimentScore == Negative
  {
    assert text[0] in text && !IsSpace(text[0]);
    BadgeWords(text);
    ScoreOfLowered(text, text);
    BadgePositiveMisses(["badge"]);
    NoneFoundByMisses(PositiveWords, ["badge"]);
    FoundInWords(NegativeWords, ["badge"], "bad", "badge");
  }

  /** Text made only of terminators is accepted and has no sentence. */
  lemma Exclamations(text: string)
    requires text == "!!!"
    ensures Analyze(text).Ok?
    ensures Analyze(text).value.sentenceCount == 0
  {
    assert text[0] in text && !IsSpace(text[0]);
    assert forall c :: c in text ==> c == '!';
    OnlyTerminatorsNoSentence(text);
  }

  lemma TabSpaces(text: string)
    requires text == "a\tb c"
    ensures Count(text, ' ') == 1 && Count(text, '\t') == 1
  {
    assert text == "a\tb" + " " + "c";
    CountAppend("a\tb" + " ", "c", ' ');
    CountAppend("a\tb", " ", ' ');
    CountAppend("a\tb" + " ", "c", '\t');
    CountAppend("a\tb", " ", '\t');
  }

  /** Only the space character is left out of the character count: a tab
      still counts. */
  lemma TabCounted(text: string)
    requires text == "a\tb c"
    ensures Analyze(text).Ok?
    ensures Analyze(text).value.characterCount == 5
    ensures Analyze(text).value.characterCountNoSpaces == 4
  {
    assert text[0] in text && !IsSpace(text[0]);
    TabSpaces(text);
  }

  lemma TwoParagraphsSplit(text: string)
    requires text == "a\n\nb"
    ensures Paragraphs(text) == ["a", "b"]
  {
    var t := text[1..];
    assert t == "\n\nb" && t[2..] == "b";
    assert SplitOn(t[2..], ParagraphBreak) == ["b"];
    assert ParagraphBreak <= t;
    assert SplitOn(t, ParagraphBreak) == [[]] + ["b"];
    assert text[0] == 'a' && ParagraphBreak[0] == '\n';
    assert !(ParagraphBreak <= text);
    assert SplitOn(text, ParagraphBreak) == [[text[0]] + []] + ["b"];
    assert [text[0]] + [] == "a";
  }

  lemma TwoParagraphsCount()
    ensures CountNonBlank(["a", "b"]) == 2
  {
    assert "a"[0] in "a" && "b"[0] in "b";
    assert ["a", "b"][1..] == ["b"] && ["b"][1..] == [];
  }

  /** Paragraphs are the non-blank pieces between blank-line breaks. */
  lemma TwoParagraphs(text: string)
    requires text == "a\n\nb"
    ensures Analyze(text).Ok?
    ensures Analyze(text).value.paragraphCount == 2
  {
    assert text[0] in text && !IsSpace(text[0]);
    TwoParagraphsSplit(text);
    TwoParagraphsCount();
  }
}
