/** The keyword sentiment score of the analyzer (main.py, lines 62-75):
    the lower-cased text is searched for each entry of two fixed keyword
    lists, and the list with more entries found wins. */
module Sentiment {
  import opened PyStr

  /** The three values `sentiment_score` takes. */
  datatype Label = Positive | Negative | Neutral {
    /** The string the report carries for the label. */
    function Name(): string {
      match this
      case Positive => "positive"
      case Negative => "negative"
      case Neutral => "neutral"
    }
  }

  /** The three labels are reported as three different strings. */
  lemma NamesDistinct(a: Label, b: Label)
    ensures a.Name() == b.Name() <==> a == b
  {
    assert a != b ==> a.Name()[2] != b.Name()[2];
  }

  const PositiveWords: seq<string> :=
    ["good", "great", "excellent", "amazing", "love", "wonderful", "fantastic"]

  const NegativeWords: seq<string> :=
    ["bad", "terrible", "awful", "hate", "horrible", "disgusting"]

  /** `sum(1 for word in keywords if word in text)`: how many entries of
      `keywords` occur somewhere in `text`, each counted once however often
      it occurs. */
  function Hits(keywords: seq<string>, text: string): (n: nat)
    ensures n <= |keywords|
  {
    if keywords == [] then 0
    else (if Contains(text, keywords[0]) then 1 else 0) + Hits(keywords[1..], text)
  }

  /** No keyword is listed twice. */
  predicate Distinct(keywords: seq<string>) {
    forall i, j :: 0 <= i < j < |keywords| ==> keywords[i] != keywords[j]
  }

  /** The keywords found in `text`. */
  function Found(keywords: seq<string>, text: string): set<string> {
    set k | k in keywords && Contains(text, k)
  }

  /** With distinct keywords, the hit count is the number of different
      keywords that occur: occurrences are not counted. */
  lemma {:induction false} HitsCountFoundKeywords(keywords: seq<string>, text: string)
    requires Distinct(keywords)
    ensures Hits(keywords, text) == |Found(keywords, text)|
  {
    if keywords != [] {
      var k := keywords[0];
      var rest := keywords[1..];
      DistinctTail(keywords);
      HitsCountFoundKeywords(rest, text);
      FoundCons(keywords, text);
    } else {
      assert Found(keywords, text) == {};
    }
  }

  lemma DistinctTail(keywords: seq<string>)
    requires keywords != [] && Distinct(keywords)
    ensures Distinct(keywords[1..]) && keywords[0] !in keywords[1..]
  {
    var rest := keywords[1..];
    forall i, j | 0 <= i < j < |rest| ensures rest[i] != rest[j] {
      assert rest[i] == keywords[i + 1] && rest[j] == keywords[j + 1];
    }
    forall j | 0 <= j < |rest| ensures rest[j] != keywords[0] {
      assert rest[j] == keywords[j + 1];
    }
  }

  lemma FoundCons(keywords: seq<string>, text: string)
    requires keywords != [] && keywords[0] !in keywords[1..]
    ensures |Found(keywords, text)| ==
            (if Contains(text, keywords[0]) then 1 else 0) + |Found(keywords[1..], text)|
  {
    var k := keywords[0];
    var f := Found(keywords, text);
    var g := Found(keywords[1..], text);
    assert forall x :: x in keywords <==> x == k || x in keywords[1..];
    if Contains(text, k) {
      assert f == {k} + g;
    } else {
      assert f == g;
    }
  }

  lemma DistinctKeywordLists()
    ensures Distinct(PositiveWords) && Distinct(NegativeWords)
  {
  }

  /** Appending text never loses a keyword hit. */
  lemma {:induction false} HitsGrow(keywords: seq<string>, a: string, b: string)
    ensures Hits(keywords, a) <= Hits(keywords, a + b)
    ensures Hits(keywords, b) <= Hits(keywords, a + b)
  {
    if keywords != [] {
      HitsGrow(keywords[1..], a, b);
      if Contains(a, keywords[0]) {
        ContainsAppendRight(a, b, keywords[0]);
      }
      if Contains(b, keywords[0]) {
        ContainsAppendLeft(a, b, keywords[0]);
      }
    }
  }

  /** The three-way decision on the two hit counts. */
  function Classify(positive: nat, negative: nat): (l: Label)
    ensures l == Positive <==> positive > negative
    ensures l == Negative <==> negative > positive
    ensures l == Neutral <==> positive == negative
  {
    if positive > negative then Positive
    else if negative > positive then Negative
    else Neutral
  }

  /** `sentiment_score` of a text. */
  function Score(text: string): Label {
    var lowered := Lower(text);
    Classify(Hits(PositiveWords, lowered), Hits(NegativeWords, lowered))
  }

  /** Two strings that differ only in the case of ASCII letters. */
  predicate SameUpToCase(a: string, b: string) {
    |a| == |b| && forall i :: 0 <= i < |a| ==> LowerChar(a[i]) == LowerChar(b[i])
  }

  /** The score does not depend on letter case. */
  lemma ScoreIgnoresCase(a: string, b: string)
    requires SameUpToCase(a, b)
    ensures Score(a) == Score(b)
  {
    assert Lower(a) == Lower(b);
  }

  /** Some word of `words` contains `k`. */
  predicate InSomeWord(k: string, words: seq<string>) {
    words != [] && (Contains(words[0], k) || InSomeWord(k, words[1..]))
  }

  /** A keyword without whitespace occurs in a text exactly when it occurs
      inside one of the text's whitespace-separated words: the search is a
      substring search within words, not a whole-word match. */
  lemma {:induction false} KeywordInSomeWord(text: string, k: string)
    requires k != [] && NoneOf(k, IsSpace)
    ensures Contains(text, k) <==> InSomeWord(k, Tokens(text, IsSpace))
    decreases |text|
  {
    if text == [] {
    } else if IsSpace(text[0]) {
      assert text == [] + [text[0]] + text[1..];
      ContainsAround([], text[0], text[1..], k);
      KeywordInSomeWord(text[1..], k);
    } else {
      var n := Span(text, IsSpace, false);
      var w := text[..n];
      assert NoneOf(w, IsSpace) by {
        forall c | c in w ensures !IsSpace(c) {
          var i :| 0 <= i < n && w[i] == c;
        }
      }
      if n == |text| {
        assert w == text;
        TokensOfRun(text, IsSpace);
      } else {
        var rest := text[n + 1..];
        assert text == w + [text[n]] + rest;
        TokensCons(w, text[n], rest, IsSpace);
        ContainsAround(w, text[n], rest, k);
        KeywordInSomeWord(rest, k);
        assert ([w] + Tokens(rest, IsSpace))[1..] == Tokens(rest, IsSpace);
      }
    }
  }

  /** `Hits` computed word by word. */
  function HitsInWords(keywords: seq<string>, words: seq<string>): nat {
    if keywords == [] then 0
    else (if InSomeWord(keywords[0], words) then 1 else 0) + HitsInWords(keywords[1..], words)
  }

  /** For keywords without whitespace, counting hits in the text and
      counting hits in its words agree. */
  lemma {:induction false} HitsByWords(keywords: seq<string>, text: string)
    requires forall k :: k in keywords ==> k != [] && NoneOf(k, IsSpace)
    ensures Hits(keywords, text) == HitsInWords(keywords, Tokens(text, IsSpace))
  {
    if keywords != [] {
      assert keywords[0] in keywords;
      assert forall k :: k in keywords[1..] ==> k in keywords;
      KeywordInSomeWord(text, keywords[0]);
      HitsByWords(keywords[1..], text);
    }
  }

  /** Every keyword is a non-empty string without whitespace. */
  lemma KeywordsAreWords()
    ensures forall k :: k in PositiveWords ==> k != [] && NoneOf(k, IsSpace)
    ensures forall k :: k in NegativeWords ==> k != [] && NoneOf(k, IsSpace)
  {
    PositiveWordsAreWords();
    NegativeWordsAreWords();
  }

  lemma PositiveWordsAreWords()
    ensures forall k :: k in PositiveWords ==> k != [] && NoneOf(k, IsSpace)
  {
  }

  lemma NegativeWordsAreWords()
    ensures forall k :: k in NegativeWords ==> k != [] && NoneOf(k, IsSpace)
  {
  }

  /** The score read off the words of the text: each keyword is looked for
      inside the lower-cased words of `text.split()`. */
  lemma ScoreByWords(text: string)
    ensures Score(text) == Classify(
      HitsInWords(PositiveWords, LowerEach(Tokens(text, IsSpace))),
      HitsInWords(NegativeWords, LowerEach(Tokens(text, IsSpace))))
  {
    TokensLower(text);
    KeywordsAreWords();
    HitsByWords(PositiveWords, Lower(text));
    HitsByWords(NegativeWords, Lower(text));
  }
}
