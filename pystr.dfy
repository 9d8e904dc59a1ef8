/** The parts of Python's `str` behaviour that the text analyzer relies on:
    `split()`, `split(sep)`, `strip()`, `strip(chars)`, `replace(c, '')`,
    `lower()`, the `in` substring test, and `re.split` on a run of a
    character class. Strings are sequences of Unicode scalar values; a
    Python `str` may also hold lone surrogates, which are not modelled. */
module PyStr {

  /** Python's `str.isspace()` on one character: the characters that
      `str.split()` and `str.strip()` treat as whitespace. */
  predicate IsSpace(c: char) {
    || ('\t' <= c <= '\r')            // tab, line feed, vertical tab, form feed, carriage return
    || ('\U{1c}' <= c <= '\U{1f}')    // file, group, record and unit separators
    || c == ' ' || c == '\U{85}' || c == '\U{a0}' || c == '\U{1680}'
    || ('\U{2000}' <= c <= '\U{200a}')
    || c == '\U{2028}' || c == '\U{2029}' || c == '\U{202f}' || c == '\U{205f}' || c == '\U{3000}'
  }

  /** No character of `s` satisfies `p`. */
  predicate NoneOf(s: string, p: char -> bool) {
    forall c :: c in s ==> !p(c)
  }

  /** `not s.strip()`: `s` is empty or made of whitespace only. */
  predicate IsBlank(s: string) {
    forall c :: c in s ==> IsSpace(c)
  }

  /** `s.count(c)` for a single character. */
  function Count(s: string, c: char): nat {
    if s == [] then 0 else (if s[0] == c then 1 else 0) + Count(s[1..], c)
  }

  lemma {:induction false} CountAppend(a: string, b: string, c: char)
    ensures Count(a + b, c) == Count(a, c) + Count(b, c)
  {
    if a != [] {
      assert (a + b)[1..] == a[1..] + b;
      CountAppend(a[1..], b, c);
    } else {
      assert a + b == b;
    }
  }

  /** `s.replace(c, '')`: every occurrence of `c` is removed and every other
      character is kept, so only the length taken by `c` is lost. */
  function RemoveAll(s: string, c: char): (r: string)
    ensures c !in r
    ensures |r| == |s| - Count(s, c)
    ensures forall d :: d != c ==> Count(r, d) == Count(s, d)
  {
    if s == [] then []
    else
      var rest := RemoveAll(s[1..], c);
      var head := if s[0] == c then [] else [s[0]];
      CountAppend(head, rest, c);
      forall d | d != c ensures Count(head + rest, d) == Count(s, d) {
        CountAppend(head, rest, d);
      }
      head + rest
  }

  /** The characters of `s` that do not satisfy `p`, in order. */
  function Without(s: string, p: char -> bool): string {
    if s == [] then [] else (if p(s[0]) then [] else [s[0]]) + Without(s[1..], p)
  }

  lemma {:induction false} WithoutAppend(a: string, b: string, p: char -> bool)
    ensures Without(a + b, p) == Without(a, p) + Without(b, p)
  {
    if a != [] {
      assert (a + b)[1..] == a[1..] + b;
      WithoutAppend(a[1..], b, p);
    } else {
      assert a + b == b;
    }
  }

  /** Removing a class of characters that includes `c` removes at least
      every `c`. */
  lemma {:induction false} WithoutShorterThanCount(s: string, p: char -> bool, c: char)
    requires p(c)
    ensures |Without(s, p)| <= |s| - Count(s, c)
  {
    if s != [] {
      WithoutShorterThanCount(s[1..], p, c);
    }
  }

  /** `s.lstrip(chars)`, where `drop` says which characters are in `chars`:
      the longest suffix of `s` that does not start with a dropped
      character. */
  function LStrip(s: string, drop: char -> bool): (r: string)
    ensures |r| <= |s| && r == s[|s| - |r|..]
    ensures forall i :: 0 <= i < |s| - |r| ==> drop(s[i])
    ensures r != [] ==> !drop(r[0])
  {
    if s != [] && drop(s[0]) then
      var r := LStrip(s[1..], drop);
      assert s[|s| - |r|..] == s[1..][|s| - 1 - |r|..];
      assert forall i :: 1 <= i < |s| - |r| ==> s[i] == s[1..][i - 1];
      r
    else s
  }

  /** `s.rstrip(chars)`: the longest prefix of `s` that does not end with a
      dropped character. */
  function RStrip(s: string, drop: char -> bool): (r: string)
    ensures |r| <= |s| && r == s[..|r|]
    ensures forall i :: |r| <= i < |s| ==> drop(s[i])
    ensures r != [] ==> !drop(r[|r| - 1])
  {
    if s != [] && drop(s[|s| - 1]) then RStrip(s[..|s| - 1], drop) else s
  }

  /** `s.strip(chars)`; with `drop == IsSpace` it is `s.strip()`. The result
      is empty exactly when every character is dropped, and otherwise it
      neither starts nor ends with a dropped character. */
  function Strip(s: string, drop: char -> bool): (r: string)
    ensures |r| <= |s|
    ensures r == [] <==> forall i :: 0 <= i < |s| ==> drop(s[i])
    ensures r != [] ==> !drop(r[0]) && !drop(r[|r| - 1])
  {
    RStrip(LStrip(s, drop), drop)
  }

  /** `t` is the slice of `s` that starts at `i`, and every character of
      `s` outside that slice is dropped. */
  predicate TrimmedTo(s: string, t: string, i: nat, drop: char -> bool) {
    && i + |t| <= |s|
    && t == s[i..i + |t|]
    && (forall k :: 0 <= k < i ==> drop(s[k]))
    && (forall k :: i + |t| <= k < |s| ==> drop(s[k]))
  }

  /** What `strip` keeps: a contiguous slice of `s`, with only dropped
      characters before and after it. */
  lemma StripIsSlice(s: string, drop: char -> bool)
    ensures exists i :: TrimmedTo(s, Strip(s, drop), i, drop)
  {
    var l := LStrip(s, drop);
    assert Strip(s, drop) == RStrip(l, drop);
    TrimmedInside(s, l, Strip(s, drop), drop);
  }

  /** Cutting a dropped prefix and then a dropped suffix leaves a slice. */
  lemma TrimmedInside(s: string, l: string, r: string, drop: char -> bool)
    requires |l| <= |s| && l == s[|s| - |l|..]
    requires forall k :: 0 <= k < |s| - |l| ==> drop(s[k])
    requires |r| <= |l| && r == l[..|r|]
    requires forall k :: |r| <= k < |l| ==> drop(l[k])
    ensures TrimmedTo(s, r, |s| - |l|, drop)
  {
    var i := |s| - |l|;
    assert r == s[i..i + |r|];
    forall k | i + |r| <= k < |s|
      ensures drop(s[k])
    {
      assert s[k] == l[k - i];
    }
  }

  /** Stripping leaves a string alone when its ends are not dropped. */
  lemma StripKeeps(s: string, drop: char -> bool)
    requires s != [] && !drop(s[0]) && !drop(s[|s| - 1])
    ensures Strip(s, drop) == s
  {
  }

  /** Stripping a string whose middle part starts and ends with kept
      characters only touches the parts around it. */
  lemma {:induction false} StripAround(a: string, m: string, b: string, drop: char -> bool)
    requires m != [] && !drop(m[0]) && !drop(m[|m| - 1])
    ensures Strip(a + m + b, drop) == LStrip(a, drop) + m + RStrip(b, drop)
  {
    var l := LStrip(a, drop);
    LStripAround(a, m, b, drop);
    assert (l + m)[|l + m| - 1] == m[|m| - 1];
    RStripAppend(l + m, b, drop);
  }

  /** Left-stripping stops at a kept character in the middle. */
  lemma {:induction false} LStripAround(a: string, m: string, b: string, drop: char -> bool)
    requires m != [] && !drop(m[0])
    ensures LStrip(a + m + b, drop) == LStrip(a, drop) + m + b
  {
    if a != [] {
      assert (a + m + b)[1..] == a[1..] + m + b;
      assert (a + m + b)[0] == a[0];
      LStripAround(a[1..], m, b, drop);
    } else {
      assert a + m + b == m + b;
      assert (m + b)[0] == m[0];
    }
  }

  lemma {:induction false} RStripAppend(a: string, b: string, drop: char -> bool)
    requires a != [] && !drop(a[|a| - 1])
    ensures RStrip(a + b, drop) == a + RStrip(b, drop)
    decreases |b|
  {
    if b != [] {
      assert (a + b)[..|a + b| - 1] == a + b[..|b| - 1];
      RStripAppend(a, b[..|b| - 1], drop);
    } else {
      assert a + b == a;
    }
  }

  /** Length of the leading run of `s` whose characters give `p(c) == want`. */
  function Span(s: string, p: char -> bool, want: bool): (n: nat)
    ensures n <= |s|
    ensures forall i :: 0 <= i < n ==> p(s[i]) == want
    ensures n < |s| ==> p(s[n]) != want
  {
    if s == [] || p(s[0]) != want then 0 else 1 + Span(s[1..], p, want)
  }

  /** Appending text after a run that already stops inside `a` does not
      change the run; a run that stops where `b` begins with a stopper
      stays where it is too. */
  lemma SpanAppend(a: string, b: string, p: char -> bool, want: bool)
    requires Span(a, p, want) < |a| || (b != [] && p(b[0]) != want)
    ensures Span(a + b, p, want) == Span(a, p, want)
  {
    var n := Span(a, p, want);
    if n < |a| {
      assert (a + b)[n] == a[n];
    } else {
      assert (a + b)[n] == b[0];
    }
    SpanUnique(a + b, p, want, n);
  }

  /** The run length is the only index with the two properties of `Span`. */
  lemma SpanUnique(s: string, p: char -> bool, want: bool, n: nat)
    requires n <= |s|
    requires forall i :: 0 <= i < n ==> p(s[i]) == want
    requires n < |s| ==> p(s[n]) != want
    ensures Span(s, p, want) == n
  {
  }

  /** The maximal runs of characters that are not separators, in order.
      With `sep == IsSpace` this is Python's `s.split()`. */
  function Tokens(s: string, sep: char -> bool): (r: seq<string>)
    ensures forall k :: 0 <= k < |r| ==> r[k] != [] && NoneOf(r[k], sep)
    decreases |s|
  {
    if s == [] then []
    else if sep(s[0]) then Tokens(s[1..], sep)
    else
      var n := Span(s, sep, false);
      assert forall c :: c in s[..n] ==> !sep(c) by {
        forall c | c in s[..n] ensures !sep(c) {
          var i :| 0 <= i < n && s[..n][i] == c;
        }
      }
      [s[..n]] + Tokens(s[n..], sep)
  }

  /** `"".join(ws)` */
  function Concat(ws: seq<string>): string {
    if ws == [] then [] else ws[0] + Concat(ws[1..])
  }

  /** Sum of the lengths of the strings in `ws`. */
  function TotalLength(ws: seq<string>): nat {
    if ws == [] then 0 else |ws[0]| + TotalLength(ws[1..])
  }

  lemma {:induction false} TotalLengthIsConcatLength(ws: seq<string>)
    ensures TotalLength(ws) == |Concat(ws)|
  {
    if ws != [] {
      TotalLengthIsConcatLength(ws[1..]);
    }
  }

  /** Splitting loses exactly the separators: the tokens, glued back
      together, are `s` with its separator characters taken out. */
  lemma {:induction false} TokensKeepContent(s: string, sep: char -> bool)
    ensures Concat(Tokens(s, sep)) == Without(s, sep)
    decreases |s|
  {
    if s == [] {
    } else if sep(s[0]) {
      TokensKeepContent(s[1..], sep);
    } else {
      var n := Span(s, sep, false);
      TokensKeepContent(s[n..], sep);
      assert s == s[..n] + s[n..];
      WithoutAppend(s[..n], s[n..], sep);
      WithoutRun(s[..n], sep);
      assert Concat(Tokens(s, sep)) == s[..n] + Concat(Tokens(s[n..], sep));
    }
  }

  /** A string without the characters of a class is left alone by `Without`. */
  lemma {:induction false} WithoutRun(s: string, sep: char -> bool)
    requires forall i :: 0 <= i < |s| ==> !sep(s[i])
    ensures Without(s, sep) == s
  {
    if s != [] {
      WithoutRun(s[1..], sep);
    }
  }

  /** There are no tokens exactly when every character is a separator. */
  lemma {:induction false} TokensEmpty(s: string, sep: char -> bool)
    ensures Tokens(s, sep) == [] <==> forall c :: c in s ==> sep(c)
    decreases |s|
  {
    if s != [] && sep(s[0]) {
      TokensEmpty(s[1..], sep);
      assert forall c :: c in s ==> c == s[0] || c in s[1..];
    }
  }

  /** A non-empty run of non-separators is its own single token. */
  lemma TokensOfRun(w: string, sep: char -> bool)
    requires w != [] && NoneOf(w, sep)
    ensures Tokens(w, sep) == [w]
  {
    SpanUnique(w, sep, false, |w|);
    assert w[..|w|] == w && w[|w|..] == [];
  }

  /** Splitting distributes over a separator character: the tokens of
      `a + [c] + b` are the tokens of `a` followed by those of `b`. This
      is what makes the tokens maximal runs. */
  lemma {:induction false} TokensAtSeparator(a: string, c: char, b: string, sep: char -> bool)
    requires sep(c)
    ensures Tokens(a + [c] + b, sep) == Tokens(a, sep) + Tokens(b, sep)
    decreases |a|
  {
    var s := a + [c] + b;
    if a == [] {
      assert s[1..] == b;
    } else if sep(a[0]) {
      assert s[1..] == a[1..] + [c] + b;
      TokensAtSeparator(a[1..], c, b, sep);
    } else {
      var n := Span(a, sep, false);
      assert a + ([c] + b) == s;
      assert s[0] == a[0];
      SpanAppend(a, [c] + b, sep, false);
      assert s[..n] == a[..n];
      assert s[n..] == a[n..] + [c] + b;
      TokensAtSeparator(a[n..], c, b, sep);
    }
  }

  /** A non-empty run of non-separators ended by a separator is the first
      token, and splitting goes on after the separator. */
  lemma TokensCons(w: string, c: char, rest: string, sep: char -> bool)
    requires w != [] && NoneOf(w, sep) && sep(c)
    ensures Tokens(w + [c] + rest, sep) == [w] + Tokens(rest, sep)
  {
    TokensAtSeparator(w, c, rest, sep);
    TokensOfRun(w, sep);
  }

  /** Splitting undoes joining: words without separators, joined with one
      separator character, split back into the same words. */
  lemma {:induction false} TokensJoin(parts: seq<string>, c: char, sep: char -> bool)
    requires sep(c)
    requires forall w :: w in parts ==> w != [] && NoneOf(w, sep)
    ensures Tokens(Join(parts, [c]), sep) == parts
  {
    if |parts| == 1 {
      assert parts[0] in parts;
      TokensOfRun(parts[0], sep);
    } else if |parts| > 1 {
      assert parts[0] in parts;
      assert forall w :: w in parts[1..] ==> w in parts;
      TokensJoin(parts[1..], c, sep);
      TokensCons(parts[0], c, Join(parts[1..], [c]), sep);
    }
  }

  /** Leading separators do not produce tokens. */
  lemma {:induction false} TokensSkipSeparators(s: string, k: nat, sep: char -> bool)
    requires k <= |s|
    requires forall i :: 0 <= i < k ==> sep(s[i])
    ensures Tokens(s, sep) == Tokens(s[k..], sep)
  {
    if k > 0 {
      TokensSkipSeparators(s[1..], k - 1, sep);
      assert s[1..][k - 1..] == s[k..];
    }
  }

  /** Python's `re.split('[D]+', s)` where `delim` says which characters are
      in the class `D`: the pieces between maximal runs of delimiters,
      including the empty pieces before a leading run and after a trailing
      run. */
  function SplitRuns(s: string, delim: char -> bool): (r: seq<string>)
    ensures |r| >= 1
    ensures forall k :: 0 <= k < |r| ==> NoneOf(r[k], delim)
    decreases |s|
  {
    var n := Span(s, delim, false);
    assert NoneOf(s[..n], delim) by {
      forall c | c in s[..n] ensures !delim(c) {
        var i :| 0 <= i < n && s[..n][i] == c;
      }
    }
    if n == |s| then [s[..n]]
    else
      var m := n + Span(s[n..], delim, true);
      [s[..n]] + SplitRuns(s[m..], delim)
  }

  /** `ps` with its empty strings removed. */
  function DropEmpty(ps: seq<string>): seq<string> {
    if ps == [] then [] else (if ps[0] == [] then [] else [ps[0]]) + DropEmpty(ps[1..])
  }

  lemma DropEmptyCons(x: string, rest: seq<string>)
    ensures DropEmpty([x] + rest) == (if x == [] then [] else [x]) + DropEmpty(rest)
  {
    assert ([x] + rest)[1..] == rest;
  }

  /** The tokens of a string whose first delimiter run spans `[n, m)`: the
      run before it, if any, and then the tokens after it. */
  lemma TokensAfterRun(s: string, n: nat, m: nat, delim: char -> bool)
    requires n < m <= |s|
    requires NoneOf(s[..n], delim)
    requires forall i :: n <= i < m ==> delim(s[i])
    ensures Tokens(s, delim) == (if n == 0 then [] else [s[..n]]) + Tokens(s[m..], delim)
  {
    TokensAtIndex(s, n, delim);
    SkipRunAfter(s, n, m, delim);
    TokensOfNoneOf(s[..n], delim);
  }

  /** The rest of a delimiter run yields no tokens. */
  lemma SkipRunAfter(s: string, n: nat, m: nat, delim: char -> bool)
    requires n < m <= |s|
    requires forall i :: n <= i < m ==> delim(s[i])
    ensures Tokens(s[n + 1..], delim) == Tokens(s[m..], delim)
  {
    var rest := s[n + 1..];
    forall i | 0 <= i < m - n - 1
      ensures delim(rest[i])
    {
      assert rest[i] == s[n + 1 + i];
    }
    TokensSkipSeparators(rest, m - n - 1, delim);
    assert rest[m - n - 1..] == s[m..];
  }

  /** A string without separators is one token, or none when empty. */
  lemma TokensOfNoneOf(w: string, delim: char -> bool)
    requires NoneOf(w, delim)
    ensures Tokens(w, delim) == if w == [] then [] else [w]
  {
    if w != [] {
      TokensOfRun(w, delim);
    }
  }

  /** Splitting a string at its first separator, given by index. */
  lemma TokensAtIndex(s: string, n: nat, delim: char -> bool)
    requires n < |s| && delim(s[n]) && NoneOf(s[..n], delim)
    ensures Tokens(s, delim) == Tokens(s[..n], delim) + Tokens(s[n + 1..], delim)
  {
    assert s == s[..n] + [s[n]] + s[n + 1..];
    TokensAtSeparator(s[..n], s[n], s[n + 1..], delim);
  }

  /** Dropping the empty pieces of a regular-expression split on delimiter
      runs gives the tokens: the two splitters agree up to empty pieces. */
  lemma {:induction false} SplitRunsThenDropEmpty(s: string, delim: char -> bool)
    ensures DropEmpty(SplitRuns(s, delim)) == Tokens(s, delim)
    decreases |s|
  {
    var n := Span(s, delim, false);
    if n == |s| {
      assert s[..n] == s;
      if s != [] {
        TokensOfRun(s, delim);
      }
    } else {
      var m := n + Span(s[n..], delim, true);
      SplitRunsThenDropEmpty(s[m..], delim);
      DropEmptyAfterRun(s, n, m, delim);
    }
  }

  /** One step of `SplitRunsThenDropEmpty`: past the first delimiter run,
      the two splitters agree if they agree on the rest. */
  lemma DropEmptyAfterRun(s: string, n: nat, m: nat, delim: char -> bool)
    requires n == Span(s, delim, false) < |s|
    requires m == n + Span(s[n..], delim, true)
    requires DropEmpty(SplitRuns(s[m..], delim)) == Tokens(s[m..], delim)
    ensures DropEmpty(SplitRuns(s, delim)) == Tokens(s, delim)
  {
    SplitRunsStep(s, n, m, delim);
    DropEmptyCons(s[..n], SplitRuns(s[m..], delim));
    FirstRun(s, n, m, delim);
    TokensAfterRun(s, n, m, delim);
    assert |s[..n]| == n;
  }

  /** `SplitRuns` unfolded once, past the first delimiter run. */
  lemma SplitRunsStep(s: string, n: nat, m: nat, delim: char -> bool)
    requires n == Span(s, delim, false) < |s|
    requires m == n + Span(s[n..], delim, true)
    ensures SplitRuns(s, delim) == [s[..n]] + SplitRuns(s[m..], delim)
  {
  }

  /** The first delimiter run of `s` spans `[n, m)`, after a run of
      non-delimiters. */
  lemma FirstRun(s: string, n: nat, m: nat, delim: char -> bool)
    requires n == Span(s, delim, false) < |s|
    requires m == n + Span(s[n..], delim, true)
    ensures n < m <= |s|
    ensures NoneOf(s[..n], delim)
    ensures forall i :: n <= i < m ==> delim(s[i])
  {
    var run := s[n..];
    assert run[0] == s[n];
    forall i | n <= i < m
      ensures delim(s[i])
    {
      assert s[i] == run[i - n];
    }
    forall c | c in s[..n]
      ensures !delim(c)
    {
      var j :| 0 <= j < n && s[..n][j] == c;
      assert s[j] == c;
    }
  }

  /** `sep.join(parts)` */
  function Join(parts: seq<string>, sep: string): string {
    if parts == [] then []
    else if |parts| == 1 then parts[0]
    else parts[0] + sep + Join(parts[1..], sep)
  }

  /** Python's `s.split(sep)` for a non-empty `sep`: occurrences of `sep`
      are found left to right without overlap, and the pieces between them
      are returned, empty ones included. */
  function SplitOn(s: string, sep: string): (r: seq<string>)
    requires sep != []
    ensures |r| >= 1 && r[0] <= s
    decreases |s|
  {
    if |s| < |sep| then [s]
    else if sep <= s then [[]] + SplitOn(s[|sep|..], sep)
    else
      var r := SplitOn(s[1..], sep);
      [[s[0]] + r[0]] + r[1..]
  }

  /** Joining the pieces with the separator gives back the original. */
  lemma {:induction false} JoinSplitOn(s: string, sep: string)
    requires sep != []
    ensures Join(SplitOn(s, sep), sep) == s
    decreases |s|
  {
    if |s| < |sep| {
    } else if sep <= s {
      JoinSplitOn(s[|sep|..], sep);
      JoinEmptyFirst(SplitOn(s[|sep|..], sep), sep);
      assert s == sep + s[|sep|..];
    } else {
      JoinSplitOn(s[1..], sep);
      JoinExtendFirst([s[0]], SplitOn(s[1..], sep), sep);
      assert s == [s[0]] + s[1..];
    }
  }

  /** An empty first piece contributes only its separator. */
  lemma JoinEmptyFirst(r: seq<string>, sep: string)
    requires |r| >= 1
    ensures Join([[]] + r, sep) == sep + Join(r, sep)
  {
    assert ([[]] + r)[1..] == r;
  }

  /** Prefixing the first piece prefixes the joined string. */
  lemma JoinExtendFirst(x: string, r: seq<string>, sep: string)
    requires |r| >= 1
    ensures Join([x + r[0]] + r[1..], sep) == x + Join(r, sep)
  {
    var parts := [x + r[0]] + r[1..];
    assert parts[1..] == r[1..];
    if |r| > 1 {
      assert Join(parts, sep) == x + r[0] + sep + Join(r[1..], sep);
    }
  }

  /**
   * `s.split(sep)` cuts at the leftmost occurrence: when there is a cut,
   * the first piece is followed by `sep` in `s`, and `sep` starts at no
   * earlier position.
   */
  lemma {:induction false} SplitOnLeftmost(s: string, sep: string)
    requires sep != []
    ensures var r := SplitOn(s, sep);
      |r| > 1 ==> r[0] + sep <= s && forall i :: 0 <= i < |r[0]| ==> !(sep <= s[i..])
    decreases |s|
  {
    var r := SplitOn(s, sep);
    if |s| >= |sep| && !(sep <= s) {
      var t := SplitOn(s[1..], sep);
      SplitOnLeftmost(s[1..], sep);
      if |r| > 1 {
        assert r[0] == [s[0]] + t[0];
        assert r[0] + sep == [s[0]] + (t[0] + sep);
        forall i | 0 <= i < |r[0]|
          ensures !(sep <= s[i..])
        {
          if i > 0 {
            assert s[i..] == s[1..][i - 1..];
          }
        }
      }
    }
  }

  /** Without an occurrence of `sep`, `s.split(sep)` is `[s]`. */
  lemma {:induction false} SplitOnAbsent(s: string, sep: string)
    requires sep != [] && !Contains(s, sep)
    ensures SplitOn(s, sep) == [s]
    decreases |s|
  {
    StartsWithIsPrefix(s, sep);
    if |s| >= |sep| && !(sep <= s) {
      SplitOnAbsent(s[1..], sep);
      assert [s[0]] + s[1..] == s;
    }
  }

  /** No piece of `s.split(sep)` contains `sep`. */
  lemma {:induction false} SplitOnPiecesAvoidSeparator(s: string, sep: string)
    requires sep != []
    ensures forall k :: 0 <= k < |SplitOn(s, sep)| ==> !Contains(SplitOn(s, sep)[k], sep)
    decreases |s|
  {
    var r := SplitOn(s, sep);
    if |s| < |sep| {
      ShortNotContains(s, sep);
    } else if sep <= s {
      SplitOnPiecesAvoidSeparator(s[|sep|..], sep);
      ShortNotContains([], sep);
      assert forall k :: 1 <= k < |r| ==> r[k] == SplitOn(s[|sep|..], sep)[k - 1];
    } else {
      var t := SplitOn(s[1..], sep);
      SplitOnPiecesAvoidSeparator(s[1..], sep);
      var first := [s[0]] + t[0];
      assert first[1..] == t[0];
      assert first <= s;
      StartsWithIsPrefix(first, sep);
      assert forall k :: 1 <= k < |r| ==> r[k] == t[k];
    }
  }

  /** Doubling a separator character does not change the tokens. */
  lemma DoubledSeparator(a: string, c: char, d: char, b: string, sep: char -> bool)
    requires sep(c) && sep(d)
    ensures Tokens(a + [c, d] + b, sep) == Tokens(a + [c] + b, sep)
  {
    calc {
      Tokens(a + [c, d] + b, sep);
      { assert a + [c, d] + b == a + [c] + ([d] + b); TokensAtSeparator(a, c, [d] + b, sep); }
      Tokens(a, sep) + Tokens([d] + b, sep);
      { assert [d] + b == [] + [d] + b; TokensAtSeparator([], d, b, sep); }
      Tokens(a, sep) + Tokens(b, sep);
      { TokensAtSeparator(a, c, b, sep); }
      Tokens(a + [c] + b, sep);
    }
  }

  /** Every character of `s.strip()` is a character of `s`. */
  lemma StripCharsFromText(s: string, drop: char -> bool)
    ensures forall c :: c in Strip(s, drop) ==> c in s
  {
    var l := LStrip(s, drop);
    assert forall c :: c in l ==> c in s;
  }

  /** Joining blank pieces with a blank separator gives blank text. */
  lemma {:induction false} BlankJoin(parts: seq<string>, sep: string)
    requires IsBlank(sep)
    requires forall k :: 0 <= k < |parts| ==> IsBlank(parts[k])
    ensures IsBlank(Join(parts, sep))
  {
    if |parts| > 1 {
      BlankJoin(parts[1..], sep);
    }
  }

  /** `s.startswith(k)`, compared character by character. */
  predicate StartsWith(s: string, k: string) {
    k == [] || (s != [] && s[0] == k[0] && StartsWith(s[1..], k[1..]))
  }

  lemma {:induction false} StartsWithIsPrefix(s: string, k: string)
    ensures StartsWith(s, k) <==> k <= s
  {
    if k != [] && s != [] {
      StartsWithIsPrefix(s[1..], k[1..]);
      assert k <= s <==> k[0] == s[0] && k[1..] <= s[1..];
    }
  }

  /** Python's `k in s`: `k` occurs in `s` as a contiguous substring. */
  predicate Contains(s: string, k: string)
    decreases |s|
  {
    StartsWith(s, k) || (s != [] && Contains(s[1..], k))
  }

  /** `Contains` agrees with the existence of an offset where `k` starts. */
  lemma {:induction false} ContainsAt(s: string, k: string)
    ensures Contains(s, k) <==> exists i :: 0 <= i <= |s| && k <= s[i..]
    decreases |s|
  {
    StartsWithIsPrefix(s, k);
    assert s[0..] == s;
    if s != [] {
      ContainsAt(s[1..], k);
      if Contains(s, k) && !StartsWith(s, k) {
        var i :| 0 <= i <= |s[1..]| && k <= s[1..][i..];
        assert s[1..][i..] == s[i + 1..];
      }
      if exists i :: 0 <= i <= |s| && k <= s[i..] {
        var i :| 0 <= i <= |s| && k <= s[i..];
        if i > 0 {
          assert s[1..][i - 1..] == s[i..];
        }
      }
    }
  }

  lemma ShortNotContains(s: string, k: string)
    requires |s| < |k|
    ensures !Contains(s, k)
  {
    ContainsAt(s, k);
  }

  /** A substring of `a` is a substring of `a + b`. */
  lemma ContainsAppendRight(a: string, b: string, k: string)
    requires Contains(a, k)
    ensures Contains(a + b, k)
  {
    ContainsAt(a, k);
    ContainsAt(a + b, k);
    var i :| 0 <= i <= |a| && k <= a[i..];
    assert a[i..] <= (a + b)[i..];
  }

  /** A substring of `b` is a substring of `a + b`. */
  lemma ContainsAppendLeft(a: string, b: string, k: string)
    requires Contains(b, k)
    ensures Contains(a + b, k)
  {
    ContainsAt(b, k);
    ContainsAt(a + b, k);
    var i :| 0 <= i <= |b| && k <= b[i..];
    assert (a + b)[|a| + i..] == b[i..];
  }

  /** Each character of a prefix is the character of the whole at the same
      index. */
  lemma PrefixAt(k: string, t: string, j: int)
    ensures k <= t && 0 <= j < |k| ==> j < |t| && t[j] == k[j] && t[j] in k
  {
  }

  /** A string that occurs in `s` uses only characters of `s`. */
  lemma ContainsOnlyCharsOf(s: string, k: string, c: char)
    requires Contains(s, k) && c in k
    ensures c in s
  {
    ContainsAt(s, k);
    var i :| 0 <= i <= |s| && k <= s[i..];
    var j :| 0 <= j < |k| && k[j] == c;
    assert s[i + j] == c;
  }

  /** A pattern without `c` that occurs in `a + [c] + b` occurs in `a` or in
      `b`: an occurrence cannot straddle a character it does not contain. */
  lemma ContainsAround(a: string, c: char, b: string, k: string)
    requires c !in k
    ensures Contains(a + [c] + b, k) <==> Contains(a, k) || Contains(b, k)
  {
    if Contains(a, k) {
      ContainsAppendRight(a, [c] + b, k);
      assert a + ([c] + b) == a + [c] + b;
    }
    if Contains(b, k) {
      ContainsAppendLeft(a + [c], b, k);
    }
    if Contains(a + [c] + b, k) {
      ContainsNotAcross(a, c, b, k);
    }
  }

  lemma ContainsNotAcross(a: string, c: char, b: string, k: string)
    requires c !in k && Contains(a + [c] + b, k)
    ensures Contains(a, k) || Contains(b, k)
  {
    var s := a + [c] + b;
    ContainsAt(s, k);
    var i :| 0 <= i <= |s| && k <= s[i..];
    PrefixAt(k, s[i..], |a| - i);
    if i + |k| <= |a| {
      assert k == s[i..i + |k|] == a[i..i + |k|];
      assert k <= a[i..];
      ContainsAt(a, k);
    } else if i > |a| {
      assert s[i..] == b[i - |a| - 1..];
      ContainsAt(b, k);
    }
  }

  /** ASCII `c.lower()`. */
  function LowerChar(c: char): char {
    if 'A' <= c <= 'Z' then (c as int + 32) as char else c
  }

  /** `s.lower()` on ASCII letters: same length, each character lowered. */
  function Lower(s: string): (r: string)
    ensures |r| == |s|
    ensures forall i :: 0 <= i < |s| ==> r[i] == LowerChar(s[i])
  {
    if s == [] then [] else [LowerChar(s[0])] + Lower(s[1..])
  }

  lemma LowerAppend(a: string, b: string)
    ensures Lower(a + b) == Lower(a) + Lower(b)
  {
  }

  /** `s` holds no ASCII capital letter. */
  predicate NoCapitals(s: string) {
    forall i :: 0 <= i < |s| ==> !('A' <= s[i] <= 'Z')
  }

  /** A string without ASCII capitals is its own lower case. */
  lemma LowerKeeps(s: string)
    requires NoCapitals(s)
    ensures Lower(s) == s
  {
  }

  lemma LowerIdempotent(s: string)
    ensures Lower(Lower(s)) == Lower(s)
  {
  }

  /** `[w.lower() for w in ws]` */
  function LowerEach(ws: seq<string>): (r: seq<string>)
    ensures |r| == |ws|
    ensures forall k :: 0 <= k < |ws| ==> r[k] == Lower(ws[k])
  {
    if ws == [] then [] else [Lower(ws[0])] + LowerEach(ws[1..])
  }

  /** Lower-casing and splitting on whitespace commute: `s.lower().split()`
      is `[w.lower() for w in s.split()]`, since lower-casing turns no
      character into whitespace and no whitespace into anything else. */
  lemma {:induction false} TokensLower(s: string)
    ensures Tokens(Lower(s), IsSpace) == LowerEach(Tokens(s, IsSpace))
    decreases |s|
  {
    var l := Lower(s);
    if s == [] {
    } else if IsSpace(s[0]) {
      assert l[1..] == Lower(s[1..]);
      TokensLower(s[1..]);
    } else {
      var n := Span(s, IsSpace, false);
      TokensLowerWord(s, n);
      TokensLower(s[n..]);
      LowerEachCons(s[..n], Tokens(s[n..], IsSpace));
    }
  }

  /** The first word of the lower-cased string is the lower-cased first
      word, and the rest follows the lower-cased rest. */
  lemma TokensLowerWord(s: string, n: nat)
    requires s != [] && !IsSpace(s[0]) && n == Span(s, IsSpace, false)
    ensures Tokens(Lower(s), IsSpace) == [Lower(s[..n])] + Tokens(Lower(s[n..]), IsSpace)
  {
    var l := Lower(s);
    LowerSpan(s, n);
    LowerSlices(s, n);
    TokensFirstWord(l, n, IsSpace);
  }

  /** Lower-casing keeps the length of the leading run of non-space
      characters. */
  lemma LowerSpan(s: string, n: nat)
    requires n == Span(s, IsSpace, false)
    ensures n == Span(Lower(s), IsSpace, false)
  {
    SpanUnique(Lower(s), IsSpace, false, n);
  }

  lemma {:induction false} LowerSlices(s: string, n: nat)
    requires n <= |s|
    ensures Lower(s)[..n] == Lower(s[..n]) && Lower(s)[n..] == Lower(s[n..])
  {
    assert s == s[..n] + s[n..];
    LowerAppend(s[..n], s[n..]);
  }

  /** A string that starts with a word: that word, then the tokens of what
      follows it. */
  lemma TokensFirstWord(s: string, n: nat, sep: char -> bool)
    requires s != [] && !sep(s[0]) && n == Span(s, sep, false)
    ensures Tokens(s, sep) == [s[..n]] + Tokens(s[n..], sep)
  {
  }

  lemma LowerEachCons(w: string, ws: seq<string>)
    ensures LowerEach([w] + ws) == [Lower(w)] + LowerEach(ws)
  {
    assert ([w] + ws)[1..] == ws;
  }
}
