/** `QuestionDetector` of realtime_processor.py: a stateless classifier
    (`is_question`) and a sentence extractor (`extract_questions`). */
module QuestionDetector {
  import opened Text

  /** One entry of QUESTION_PATTERNS: `\b(alt|alt|...)\b.*`, followed by a
      literal `\?` when `needsMark` holds. */
  datatype Pattern = Pattern(alternatives: seq<string>, needsMark: bool)

  /** QUESTION_PATTERNS, in source order. */
  const QuestionPatterns: seq<Pattern> := [
    Pattern(["what", "why", "how", "when", "where", "who", "which"], true),
    Pattern(["tell me about", "describe", "explain", "walk me through"], false),
    Pattern(["can you", "could you", "would you", "will you"], true),
    Pattern(["have you", "do you", "did you", "are you", "were you"], true),
    Pattern(["give me an example of", "share an experience"], false),
    Pattern(["talk about a time when"], false)
  ]

  /** The alternatives of the three patterns without `\?`, in source order:
      the only phrases that can make a text without `?` a question. */
  const Phrases: seq<string> := [
    "tell me about", "describe", "explain", "walk me through",
    "give me an example of", "share an experience", "talk about a time when"
  ]

  predicate WordBefore(s: string, i: int) {
    0 < i <= |s| && IsWordChar(s[i - 1])
  }

  predicate WordAt(s: string, i: int) {
    0 <= i < |s| && IsWordChar(s[i])
  }

  /** `\b` at position i: a word character on exactly one side. */
  predicate Boundary(s: string, i: int) {
    WordBefore(s, i) != WordAt(s, i)
  }

  /** `\bw\b` matches at position i. */
  predicate MatchesAt(s: string, w: string, i: int) {
    0 <= i && i + |w| <= |s| && s[i..i + |w|] == w && Boundary(s, i) && Boundary(s, i + |w|)
  }

  /** `.*\?` matches from position j: a `?` at or after j with no newline
      before it (`.` does not match a newline). */
  predicate MarkAhead(s: string, j: nat)
    decreases |s| - j
  {
    j < |s| && s[j] != '\n' && (s[j] == '?' || MarkAhead(s, j + 1))
  }

  /** The pattern matches at position i for one of its alternatives. */
  predicate PatternAt(s: string, p: Pattern, i: int) {
    exists k :: 0 <= k < |p.alternatives| &&
      MatchesAt(s, p.alternatives[k], i) &&
      (p.needsMark ==> MarkAhead(s, i + |p.alternatives[k]|))
  }

  /** `re.search(pattern, s)` succeeds. The patterns are lower case and are
      applied to lower-cased text, so `re.IGNORECASE` changes nothing. */
  predicate Search(s: string, p: Pattern) {
    SearchFrom(s, p, 0)
  }

  /** The scan of `re.search` from position i on finds a match. */
  predicate SearchFrom(s: string, p: Pattern, i: nat)
    decreases |s| - i
  {
    i <= |s| && (PatternAt(s, p, i) || SearchFrom(s, p, i + 1))
  }

  lemma {:induction false} SearchFromWitness(s: string, p: Pattern, i: nat)
    ensures SearchFrom(s, p, i) <==> exists j :: i <= j <= |s| && PatternAt(s, p, j)
    decreases |s| - i
  {
    if i <= |s| {
      SearchFromWitness(s, p, i + 1);
    }
  }

  /** `re.search` succeeds exactly when the pattern matches at some position. */
  lemma SearchWitness(s: string, p: Pattern)
    ensures Search(s, p) <==> exists j :: 0 <= j <= |s| && PatternAt(s, p, j)
  {
    SearchFromWitness(s, p, 0);
  }

  /** `QuestionDetector.is_question(text)` */
  predicate IsQuestion(text: string) {
    '?' in text || AnyPatternFrom(Lower(Strip(text)), 0)
  }

  /** The loop over QUESTION_PATTERNS from the n-th pattern on finds a match. */
  predicate AnyPatternFrom(s: string, n: nat)
    decreases |QuestionPatterns| - n
  {
    n < |QuestionPatterns| && (Search(s, QuestionPatterns[n]) || AnyPatternFrom(s, n + 1))
  }

  lemma {:induction false} AnyPatternFromWitness(s: string, n: nat)
    ensures AnyPatternFrom(s, n) <==>
      exists x :: n <= x < |QuestionPatterns| && Search(s, QuestionPatterns[x])
    decreases |QuestionPatterns| - n
  {
    if n < |QuestionPatterns| {
      AnyPatternFromWitness(s, n + 1);
    }
  }

  /** One of the seven phrases occurs in s between word boundaries. */
  predicate PhraseOccurs(s: string) {
    exists k, i :: 0 <= k < |Phrases| && 0 <= i <= |s| && MatchesAt(s, Phrases[k], i)
  }

  lemma {:induction false} MarkAheadHasMark(s: string, j: nat)
    requires MarkAhead(s, j)
    ensures '?' in s
    decreases |s| - j
  {
    if s[j] != '?' {
      MarkAheadHasMark(s, j + 1);
    }
  }

  /** The three patterns that end in `\?` (wh-openers, modal requests,
      yes/no openers) only match text that already contains `?`. */
  lemma MarkedPatternNeedsMark(s: string, n: nat)
    requires n < |QuestionPatterns| && QuestionPatterns[n].needsMark
    requires Search(s, QuestionPatterns[n])
    ensures '?' in s
  {
    MarkedSearchNeedsMark(s, QuestionPatterns[n], 0);
  }

  lemma {:induction false} MarkedSearchNeedsMark(s: string, p: Pattern, i: nat)
    requires p.needsMark && SearchFrom(s, p, i)
    ensures '?' in s
    decreases |s| - i
  {
    if PatternAt(s, p, i) {
      MarkedPatternAt(s, p, i);
    } else {
      MarkedSearchNeedsMark(s, p, i + 1);
    }
  }

  lemma MarkedPatternAt(s: string, p: Pattern, i: int)
    requires p.needsMark && PatternAt(s, p, i)
    ensures '?' in s
  {
    var k :| 0 <= k < |p.alternatives| && MatchesAt(s, p.alternatives[k], i) &&
      (p.needsMark ==> MarkAhead(s, i + |p.alternatives[k]|));
    MarkAheadHasMark(s, i + |p.alternatives[k]|);
  }

  /** The patterns without `\?` match exactly when one of the seven phrases occurs. */
  lemma UnmarkedPatternsArePhrases(s: string)
    ensures (exists n :: 0 <= n < |QuestionPatterns| && !QuestionPatterns[n].needsMark &&
               Search(s, QuestionPatterns[n]))
            <==> PhraseOccurs(s)
  {
    if exists n :: 0 <= n < |QuestionPatterns| && !QuestionPatterns[n].needsMark &&
        Search(s, QuestionPatterns[n]) {
      var n :| 0 <= n < |QuestionPatterns| && !QuestionPatterns[n].needsMark &&
        Search(s, QuestionPatterns[n]);
      UnmarkedPatternPhrase(s, n);
    }
    if PhraseOccurs(s) {
      var k, i :| 0 <= k < |Phrases| && 0 <= i <= |s| && MatchesAt(s, Phrases[k], i);
      PhrasePattern(s, k, i);
    }
  }

  lemma UnmarkedPatternPhrase(s: string, n: nat)
    requires n < |QuestionPatterns| && !QuestionPatterns[n].needsMark
    requires Search(s, QuestionPatterns[n])
    ensures PhraseOccurs(s)
  {
    var p := QuestionPatterns[n];
    var offset := if n == 1 then 0 else if n == 4 then 4 else 6;
    assert forall k :: 0 <= k < |p.alternatives| ==> Phrases[offset + k] == p.alternatives[k];
    SearchWitness(s, p);
    var i :| 0 <= i <= |s| && PatternAt(s, p, i);
    var k :| 0 <= k < |p.alternatives| && MatchesAt(s, p.alternatives[k], i);
    assert MatchesAt(s, Phrases[offset + k], i);
  }

  lemma PhrasePattern(s: string, k: nat, i: nat)
    requires k < |Phrases| && i <= |s| && MatchesAt(s, Phrases[k], i)
    ensures exists n :: 0 <= n < |QuestionPatterns| && !QuestionPatterns[n].needsMark &&
               Search(s, QuestionPatterns[n])
  {
    var P := QuestionPatterns;
    var n := if k < 4 then 1 else if k < 6 then 4 else 5;
    var offset := if n == 1 then 0 else if n == 4 then 4 else 6;
    assert P[n].alternatives[k - offset] == Phrases[k];
    assert PatternAt(s, P[n], i);
    SearchWitness(s, P[n]);
  }

  /** Every phrase starts and ends with a word character. */
  lemma PhraseEnds(k: nat)
    requires k < |Phrases|
    ensures |Phrases[k]| > 0 && IsWordChar(Phrases[k][0]) && IsWordChar(Phrases[k][|Phrases[k]| - 1])
  {
  }

  /** Whitespace is not a word character and lower-casing leaves it alone. */
  lemma SpaceLower(c: char)
    requires IsSpace(c)
    ensures LowerChar(c) == c && !IsWordChar(c)
  {
  }

  lemma SliceOfSlice(u: string, m: string, a: nat, i: nat, j: nat)
    requires a + |m| <= |u| && m == u[a..a + |m|] && i <= j <= |m|
    ensures m[i..j] == u[a + i..a + j]
  {
    forall x | 0 <= x < j - i ensures m[i..j][x] == u[a + i..a + j][x] {
      assert m[i + x] == u[a + i + x];
    }
  }

  /** A phrase match inside `m` is a match at the same place in `u`, where
      `m` sits at offset a of `u` and only non-word characters surround it. */
  lemma MatchOutward(u: string, m: string, a: nat, w: string, i: int)
    requires a + |m| <= |u| && m == u[a..a + |m|]
    requires forall j :: 0 <= j < a ==> !IsWordChar(u[j])
    requires forall j :: a + |m| <= j < |u| ==> !IsWordChar(u[j])
    requires |w| > 0 && MatchesAt(m, w, i)
    ensures MatchesAt(u, w, a + i)
  {
    SliceOfSlice(u, m, a, i, i + |w|);
    assert WordAt(u, a + i) == WordAt(m, i);
    if i > 0 {
      assert u[a + i - 1] == m[i - 1];
    }
    assert WordBefore(u, a + i + |w|) == WordBefore(m, i + |w|) by {
      assert u[a + i + |w| - 1] == m[i + |w| - 1];
    }
    if i + |w| < |m| {
      assert u[a + i + |w|] == m[i + |w|];
    }
  }

  /** A phrase match in `u` lies inside `m` and is a match there. */
  lemma MatchInward(u: string, m: string, a: nat, w: string, j: int)
    requires a + |m| <= |u| && m == u[a..a + |m|]
    requires forall x :: 0 <= x < a ==> !IsWordChar(u[x])
    requires forall x :: a + |m| <= x < |u| ==> !IsWordChar(u[x])
    requires |w| > 0 && IsWordChar(w[0]) && IsWordChar(w[|w| - 1])
    requires MatchesAt(u, w, j)
    ensures a <= j && j + |w| <= a + |m| && MatchesAt(m, w, j - a)
  {
    assert u[j..j + |w|][0] == w[0];
    assert u[j..j + |w|][|w| - 1] == w[|w| - 1];
    var i := j - a;
    SliceOfSlice(u, m, a, i, i + |w|);
    assert WordAt(u, j) == WordAt(m, i);
    if i > 0 {
      assert u[j - 1] == m[i - 1];
    }
    assert WordBefore(u, j + |w|) == WordBefore(m, i + |w|) by {
      assert u[j + |w| - 1] == m[i + |w| - 1];
    }
    if i + |w| < |m| {
      assert u[j + |w|] == m[i + |w|];
    }
  }

  /** Stripping before the search does not change which phrases occur. */
  lemma PhraseOccursStripped(t: string)
    ensures PhraseOccurs(Lower(Strip(t))) <==> PhraseOccurs(Lower(t))
  {
    var a := StripSlice(t);
    var u, m := Lower(t), Lower(Strip(t));
    LowerSlice(t, a, a + |Strip(t)|);
    forall x | 0 <= x < a || a + |m| <= x < |u| ensures !IsWordChar(u[x]) {
      SpaceLower(t[x]);
    }
    PhraseOccursFramed(u, m, a);
  }

  /** Phrases occur in `u` exactly when they occur in `m`, where `m` sits at
      offset a of `u` and only non-word characters surround it. */
  lemma PhraseOccursFramed(u: string, m: string, a: nat)
    requires a + |m| <= |u| && m == u[a..a + |m|]
    requires forall x :: 0 <= x < a ==> !IsWordChar(u[x])
    requires forall x :: a + |m| <= x < |u| ==> !IsWordChar(u[x])
    ensures PhraseOccurs(m) <==> PhraseOccurs(u)
  {
    if PhraseOccurs(m) {
      var k, i :| 0 <= k < |Phrases| && 0 <= i <= |m| && MatchesAt(m, Phrases[k], i);
      PhraseEnds(k);
      MatchOutward(u, m, a, Phrases[k], i);
    }
    if PhraseOccurs(u) {
      var k, j :| 0 <= k < |Phrases| && 0 <= j <= |u| && MatchesAt(u, Phrases[k], j);
      PhraseEnds(k);
      MatchInward(u, m, a, Phrases[k], j);
    }
  }

  lemma LowerSlice(t: string, i: nat, j: nat)
    requires i <= j <= |t|
    ensures Lower(t[i..j]) == Lower(t)[i..j]
  {
    forall x | 0 <= x < j - i ensures Lower(t[i..j])[x] == Lower(t)[i..j][x] {
      assert t[i..j][x] == t[i + x];
    }
  }

  /** A `?` that survives strip and lower was in the text. */
  lemma MarkSurvives(t: string)
    requires '?' in Lower(Strip(t))
    ensures '?' in t
  {
    var a := StripSlice(t);
    var m := Lower(Strip(t));
    var x :| 0 <= x < |m| && m[x] == '?';
    assert Strip(t)[x] == t[a + x];
  }

  /** The effective rule of `is_question`: a text is a question exactly
      when it contains `?` or, compared case-insensitively, one of the seven
      narrative or example phrases occurs in it between word boundaries. */
  lemma IsQuestionRule(t: string)
    ensures IsQuestion(t) <==> '?' in t || PhraseOccurs(Lower(t))
  {
    var s := Lower(Strip(t));
    PhraseOccursStripped(t);
    UnmarkedPatternsArePhrases(s);
    AnyPatternFromWitness(s, 0);
    if '?' !in t && exists n :: 0 <= n < |QuestionPatterns| && Search(s, QuestionPatterns[n]) {
      var n :| 0 <= n < |QuestionPatterns| && Search(s, QuestionPatterns[n]);
      if QuestionPatterns[n].needsMark {
        MarkedPatternNeedsMark(s, n);
        MarkSurvives(t);
      }
    }
  }

  // ---------------------------------------------------------------------
  // Sentence splitting: re.split(r'[.!?]+|\n+', text)

  predicate IsTerminator(c: char) {
    c == '.' || c == '!' || c == '?'
  }

  /** A character that starts a match of the split pattern. */
  predicate IsBreak(c: char) {
    IsTerminator(c) || c == '\n'
  }

  predicate BreakFree(s: string) {
    forall m :: 0 <= m < |s| ==> !IsBreak(s[m])
  }

  /** Position of the first break character at or after i, or |s|. */
  function FirstBreak(s: string, i: nat): (j: nat)
    requires i <= |s|
    ensures i <= j <= |s| && (j < |s| ==> IsBreak(s[j]))
    ensures forall m :: i <= m < j ==> !IsBreak(s[m])
    decreases |s| - i
  {
    if i == |s| || IsBreak(s[i]) then i else FirstBreak(s, i + 1)
  }

  /** Does c continue a separator run: `[.!?]+` when `terminators`, else `\n+`? */
  predicate InRun(c: char, terminators: bool) {
    if terminators then IsTerminator(c) else c == '\n'
  }

  /** End of the greedy separator run that continues from position j. */
  function RunEnd(s: string, j: nat, terminators: bool): (k: nat)
    requires j <= |s|
    ensures j <= k <= |s| && (k < |s| ==> !InRun(s[k], terminators))
    ensures forall m :: j <= m < k ==> InRun(s[m], terminators)
    decreases |s| - j
  {
    if j < |s| && InRun(s[j], terminators) then RunEnd(s, j + 1, terminators) else j
  }

  /** `re.split(r'[.!?]+|\n+', s)`: the text between consecutive matches
      of the pattern, each match being the longest run of one alternative. */
  function SplitSentences(s: string): (pieces: seq<string>)
    ensures |pieces| >= 1
    decreases |s|
  {
    var j := FirstBreak(s, 0);
    if j == |s| then [s]
    else
      var k := RunEnd(s, j + 1, IsTerminator(s[j]));
      [s[..j]] + SplitSentences(s[k..])
  }

  /** No piece of a split holds a separator character. */
  lemma {:induction false} SplitSentencesBreakFree(s: string, k: nat)
    requires k < |SplitSentences(s)|
    ensures BreakFree(SplitSentences(s)[k])
    decreases |s|
  {
    var j := FirstBreak(s, 0);
    if j < |s| {
      var r := RunEnd(s, j + 1, IsTerminator(s[j]));
      if k > 0 {
        SplitSentencesBreakFree(s[r..], k - 1);
      }
    }
  }

  /** The characters of s that are not break characters, in order. */
  function RemoveBreaks(s: string): string
    decreases |s|
  {
    if s == [] then [] else (if IsBreak(s[0]) then [] else [s[0]]) + RemoveBreaks(s[1..])
  }

  function Concat(pieces: seq<string>): string
    decreases |pieces|
  {
    if pieces == [] then [] else pieces[0] + Concat(pieces[1..])
  }

  /** Splitting loses nothing but the separators: the pieces, put back
      together, are the text with every `.`, `!`, `?` and newline removed. */
  lemma {:induction false} SplitSentencesContent(s: string)
    ensures Concat(SplitSentences(s)) == RemoveBreaks(s)
    decreases |s|
  {
    var j := FirstBreak(s, 0);
    if j == |s| {
      RemoveBreaksRun(s, j, j);
      assert s[..j] == s && s[j..] == [];
      assert SplitSentences(s) == [s];
      ConcatCons(s, []);
    } else {
      var k := RunEnd(s, j + 1, IsTerminator(s[j]));
      assert SplitSentences(s) == [s[..j]] + SplitSentences(s[k..]);
      SplitSentencesContent(s[k..]);
      ConcatCons(s[..j], SplitSentences(s[k..]));
      RemoveBreaksRun(s, j, k);
    }
  }

  /** Removing breaks from a break-free head, a run of breaks and a tail. */
  lemma {:induction false} RemoveBreaksRun(s: string, j: nat, k: nat)
    requires j <= k <= |s|
    requires forall m :: 0 <= m < j ==> !IsBreak(s[m])
    requires forall m :: j <= m < k ==> IsBreak(s[m])
    ensures RemoveBreaks(s) == s[..j] + RemoveBreaks(s[k..])
    decreases k
  {
    if k > 0 {
      var t := s[1..];
      assert forall m :: 0 <= m < |t| ==> t[m] == s[m + 1];
      if j > 0 {
        RemoveBreaksRun(t, j - 1, k - 1);
        assert s[..j] == [s[0]] + t[..j - 1];
      } else {
        RemoveBreaksRun(t, 0, k - 1);
      }
      assert t[k - 1..] == s[k..];
    }
  }

  lemma ConcatCons(a: string, rest: seq<string>)
    ensures Concat([a] + rest) == a + Concat(rest)
  {
    assert ([a] + rest)[1..] == rest;
  }

  /** A text with no separator is one piece. */
  lemma SplitSentencesNone(s: string)
    requires BreakFree(s)
    ensures SplitSentences(s) == [s]
  {
  }

  /** A terminator after a separator-free first sentence ends that sentence;
      the rest of the text is split on its own. */
  lemma SplitSentencesCons(a: string, d: char, b: string)
    requires BreakFree(a) && IsTerminator(d)
    requires b == [] || !IsTerminator(b[0])
    ensures SplitSentences(a + [d] + b) == [a] + SplitSentences(b)
  {
    var s := a + [d] + b;
    assert s[|a|] == d;
    assert FirstBreak(s, 0) == |a| by {
      forall m | 0 <= m < |a| ensures !IsBreak(s[m]) {
        assert s[m] == a[m];
      }
    }
    assert RunEnd(s, |a| + 1, true) == |a| + 1 by {
      if b != [] {
        assert s[|a| + 1] == b[0];
      }
    }
    assert s[..|a|] == a;
    assert s[|a| + 1..] == b;
  }

  // ---------------------------------------------------------------------
  // extract_questions

  /** The filter of the loop: `sentence and len(sentence) > 10` and `is_question`. */
  predicate Kept(sentence: string) {
    sentence != "" && |sentence| > 10 && IsQuestion(sentence)
  }

  predicate EndsWithMark(s: string) {
    |s| > 0 && s[|s| - 1] == '?'
  }

  /** `sentence` with `?` added unless it already ends with one. */
  function Marked(sentence: string): string {
    if EndsWithMark(sentence) then sentence else sentence + "?"
  }

  /** What the loop body does with one piece: strip it and, if it is kept,
      mark it. */
  function Pick(piece: string): seq<string> {
    var sentence := Strip(piece);
    if Kept(sentence) then [Marked(sentence)] else []
  }

  /** The questions collected from pieces, in order. */
  function Collect(pieces: seq<string>): seq<string>
    decreases |pieces|
  {
    if pieces == [] then [] else Collect(pieces[..|pieces| - 1]) + Pick(pieces[|pieces| - 1])
  }

  /** The value `extract_questions(text)` returns. */
  function Questions(text: string): seq<string> {
    Collect(SplitSentences(text))
  }

  /** `QuestionDetector.extract_questions(text)` */
  method ExtractQuestions(text: string) returns (questions: seq<string>)
    ensures questions == Questions(text)
  {
    questions := [];
    var sentences := SplitSentences(text);
    for i := 0 to |sentences|
      invariant questions == Collect(sentences[..i])
    {
      CollectStep(sentences, i);
      var sentence := Strip(sentences[i]);
      if sentence != "" && |sentence| > 10 {
        var isQuestion := IsQuestion(sentence);
        if isQuestion {
          if !EndsWithMark(sentence) {
            sentence := sentence + "?";
          }
          questions := questions + [sentence];
        }
      }
    }
    assert sentences[..|sentences|] == sentences;
  }

  /** One more piece adds what `Pick` keeps of it. */
  lemma CollectStep(pieces: seq<string>, i: nat)
    requires i < |pieces|
    ensures Collect(pieces[..i + 1]) == Collect(pieces[..i]) +
      (if Kept(Strip(pieces[i])) then [Marked(Strip(pieces[i]))] else [])
  {
    assert pieces[..i + 1][..i] == pieces[..i];
  }

  /** A stripped piece of a split never ends with `?`, so marking it
      always appends one. */
  lemma MarkedBreakFree(piece: string)
    requires BreakFree(piece)
    ensures Marked(Strip(piece)) == Strip(piece) + "?"
  {
    var sentence := Strip(piece);
    var a := StripSlice(piece);
    assert sentence != [] ==> sentence[|sentence| - 1] == piece[a + |sentence| - 1];
  }

  /** Every collected question comes from a kept piece. */
  lemma {:induction false} CollectSound(pieces: seq<string>, q: string) returns (k: nat)
    requires q in Collect(pieces)
    ensures k < |pieces| && Kept(Strip(pieces[k])) && q == Marked(Strip(pieces[k]))
    decreases |pieces|
  {
    var n := |pieces| - 1;
    var init := pieces[..n];
    assert Collect(pieces) == Collect(init) + Pick(pieces[n]);
    if q in Collect(init) {
      k := CollectSound(init, q);
      assert init[k] == pieces[k];
    } else {
      k := n;
    }
  }

  /** Every kept piece is collected. */
  lemma {:induction false} CollectComplete(pieces: seq<string>, k: nat)
    requires k < |pieces| && Kept(Strip(pieces[k]))
    ensures Marked(Strip(pieces[k])) in Collect(pieces)
    decreases |pieces|
  {
    var n := |pieces| - 1;
    var init := pieces[..n];
    assert Collect(pieces) == Collect(init) + Pick(pieces[n]);
    var q := Marked(Strip(pieces[k]));
    if k < n {
      assert init[k] == pieces[k];
      CollectComplete(init, k);
      assert q in Collect(init);
    } else {
      assert k == n;
      PickKept(pieces[k]);
    }
  }

  lemma PickKept(piece: string)
    requires Kept(Strip(piece))
    ensures Pick(piece) == [Marked(Strip(piece))]
  {
  }

  /** `extract_questions` returns exactly the split pieces that, stripped,
      are longer than 10 characters and pass `is_question`, each stripped
      and with `?` appended. */
  lemma QuestionsMember(text: string, q: string)
    ensures q in Questions(text) <==>
      exists k :: 0 <= k < |SplitSentences(text)| &&
        Kept(Strip(SplitSentences(text)[k])) && q == Strip(SplitSentences(text)[k]) + "?"
  {
    var pieces := SplitSentences(text);
    if q in Questions(text) {
      var k := CollectSound(pieces, q);
      SplitSentencesBreakFree(text, k);
      MarkedBreakFree(pieces[k]);
    }
    if exists k :: 0 <= k < |pieces| && Kept(Strip(pieces[k])) && q == Strip(pieces[k]) + "?" {
      var k :| 0 <= k < |pieces| && Kept(Strip(pieces[k])) && q == Strip(pieces[k]) + "?";
      CollectComplete(pieces, k);
      SplitSentencesBreakFree(text, k);
      MarkedBreakFree(pieces[k]);
    }
  }

  /** Stripping a separator-free piece leaves it separator-free. */
  lemma StripBreakFree(p: string)
    requires BreakFree(p)
    ensures BreakFree(Strip(p))
  {
    var a := StripSlice(p);
    forall m | 0 <= m < |Strip(p)| ensures !IsBreak(Strip(p)[m]) {
      assert Strip(p)[m] == p[a + m];
    }
  }

  /** Every extracted question ends with its only `?`, is at least 12
      characters long, and holds no `.`, `!` or newline. */
  lemma QuestionShape(text: string, q: string)
    requires q in Questions(text)
    ensures |q| >= 12 && q[|q| - 1] == '?'
    ensures forall m :: 0 <= m < |q| - 1 ==> !IsBreak(q[m])
  {
    QuestionsMember(text, q);
    var pieces := SplitSentences(text);
    var k :| 0 <= k < |pieces| && Kept(Strip(pieces[k])) && q == Strip(pieces[k]) + "?";
    SplitSentencesBreakFree(text, k);
    StripBreakFree(pieces[k]);
    assert q[..|q| - 1] == Strip(pieces[k]);
  }

  /** Extracting again from an extracted question gives back just that question. */
  lemma QuestionsIdempotent(text: string, q: string)
    requires q in Questions(text)
    ensures Questions(q) == [q]
  {
    QuestionsMember(text, q);
    var pieces := SplitSentences(text);
    var k :| 0 <= k < |pieces| && Kept(Strip(pieces[k])) && q == Strip(pieces[k]) + "?";
    var p := Strip(pieces[k]);
    SplitSentencesBreakFree(text, k);
    StripBreakFree(pieces[k]);
    StripIdempotent(pieces[k]);
    QuestionsMarked(p);
  }

  /** A kept sentence without separators, marked, is extracted as itself. */
  lemma QuestionsMarked(p: string)
    requires BreakFree(p) && Strip(p) == p && Kept(p)
    ensures Questions(p + "?") == [p + "?"]
  {
    var q := p + "?";
    SplitSentencesLast(p, '?');
    PickKept(p);
    MarkedBreakFree(p);
    assert Pick(p) == [q];
    assert Pick("") == [];
    CollectPair(p, "");
  }

  lemma CollectPair(x: string, y: string)
    ensures Collect([x, y]) == Pick(x) + Pick(y)
  {
    assert [x, y][..1] == [x];
    assert [x][..0] == [];
    assert Collect([x]) == Collect([]) + Pick(x) == Pick(x);
    assert Collect([x, y]) == Collect([x]) + Pick(y);
  }

  /** A separator-free sentence closed by one terminator splits into
      itself and the empty rest. */
  lemma SplitSentencesLast(y: string, e: char)
    requires BreakFree(y) && IsTerminator(e)
    ensures SplitSentences(y + [e]) == [y, ""]
  {
    assert y + [e] == y + [e] + "";
    SplitSentencesCons(y, e, "");
    SplitSentencesNone("");
    Pair(y, "");
  }

  lemma Pair<T>(a: T, b: T)
    ensures [a] + [b] == [a, b]
  {
  }

  lemma Triple<T>(a: T, b: T, c: T)
    ensures [a] + [b, c] == [a, b, c] && [a, b, c][..2] == [a, b]
  {
  }

  /** Two terminated sentences are split and filtered independently. */
  lemma QuestionsTwo(x: string, d: char, y: string, e: char)
    requires BreakFree(x) && BreakFree(y) && IsTerminator(d) && IsTerminator(e)
    requires y != [] && !IsTerminator(y[0])
    ensures Questions(x + [d] + y + [e]) == Pick(x) + Pick(y)
  {
    assert x + [d] + y + [e] == x + [d] + (y + [e]);
    SplitSentencesCons(x, d, y + [e]);
    SplitSentencesLast(y, e);
    Triple(x, y, "");
    CollectPair(x, y);
    assert Collect([x, y, ""]) == Collect([x, y]) + Pick("");
  }
  /** A question repeated within one text is extracted twice. */
  lemma QuestionsKeepsDuplicates(p: string)
    requires BreakFree(p) && p != [] && !IsTerminator(p[0]) && Kept(Strip(p))
    ensures Questions(p + "?" + p + "?") == [Strip(p) + "?", Strip(p) + "?"]
  {
    assert p + "?" + p + "?" == p + ['?'] + p + ['?'];
    QuestionsTwo(p, '?', p, '?');
    PickKept(p);
    MarkedBreakFree(p);
  }

  /** A follow-up sentence that fails the filter, such as a short or
      phrase-free one, is dropped even though it ended with `?`. */
  lemma QuestionsDropsFiller(x: string, y: string)
    requires BreakFree(x) && BreakFree(y) && y != [] && !IsTerminator(y[0])
    requires !Kept(Strip(y))
    ensures Questions(x + "?" + y + "?") == Pick(x)
  {
    assert x + "?" + y + "?" == x + ['?'] + y + ['?'];
    QuestionsTwo(x, '?', y, '?');
  }
}
