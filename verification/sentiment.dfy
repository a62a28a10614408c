/** The lexicon sentiment scorer `analyze_sentiment` and the per-dialogue
    polarity split that feeds the three sentiment word clouds. */
module Sentiment {
  import opened Seqs
  import opened Results
  import opened Resources
  import opened Tokenize
  import opened Normalize
  import opened Ratios

  datatype Label = Positive | Negative | Neutral

  /** The dictionary `analyze_sentiment` returns. */
  datatype SentimentResult = SentimentResult(
    score: Fraction,
    sentiment: Label,
    positiveWords: seq<string>,
    negativeWords: seq<string>)

  function InSet(s: set<string>): string -> bool {
    w => w in s
  }

  /** `[word for word in words if word in s]`. */
  function Matching(s: set<string>, words: seq<string>): (r: seq<string>)
    ensures |r| <= |words|
    ensures forall i :: 0 <= i < |r| ==> r[i] in s
    ensures IsSubseq(r, words)
    ensures forall w :: multiset(r)[w] == if w in s then multiset(words)[w] else 0
  {
    FilterIsSubseq(InSet(s), words);
    FilterCounts(InSet(s), words);
    Filter(InSet(s), words)
  }

  /** The words a match list holds are the lexicon words of `words`. */
  lemma MatchingMembers(s: set<string>, words: seq<string>)
    ensures forall w :: w in Matching(s, words) <==> w in words && w in s
  {
    var r := Matching(s, words);
    forall w ensures w in r <==> w in words && w in s {
      assert w in r <==> multiset(r)[w] > 0;
      assert w in words <==> multiset(words)[w] > 0;
    }
  }

  /** The label of a score, decided on integers: with `den > 0`, `num / den >
      0.1` is `10 * num > den`. */
  function Verdict(f: Fraction): (l: Label)
    requires -(f.den as int) <= f.num <= f.den
    ensures f.den == 0 ==> l == Neutral
    ensures l == Positive ==> f.num > 0
    ensures l == Negative ==> f.num < 0
  {
    if f.den > 0 && 10 * f.num > f.den then Positive
    else if f.den > 0 && 10 * f.num < -(f.den as int) then Negative
    else Neutral
  }

  /** The label the source computes from the floating-point score, `> 0.1`
      positive, `< -0.1` negative, is the one decided on integers, and the
      score lies in [-1, 1]. */
  lemma VerdictThresholds(f: Fraction)
    requires -(f.den as int) <= f.num <= f.den
    ensures -1.0 <= Value(f) <= 1.0
    ensures Verdict(f) == Positive <==> Value(f) > 0.1
    ensures Verdict(f) == Negative <==> Value(f) < -0.1
  {
    if f.den > 0 {
      var d, m := f.num as real, f.den as real;
      Compare(f, 1.0);
      Compare(f, -1.0);
      Compare(f, 0.1);
      Compare(f, -0.1);
      assert 10 * f.num > f.den <==> d > 0.1 * m;
      assert 10 * f.num < -(f.den as int) <==> d < -0.1 * m;
    }
  }

  /** `analyze_sentiment(text, words)`: the score is the number of positive
      tokens minus the number of negative tokens over the number of tokens,
      0 without tokens; above 1/10 is positive, below -1/10 negative, anything
      else neutral. The matched word lists keep every lexicon token of
      `words`, in order. */
  function Analyze(lex: Lexicon, words: seq<string>): (r: SentimentResult)
    ensures r.score.den == |words|
    ensures r.score.num == |r.positiveWords| - |r.negativeWords|
    ensures -|words| <= r.score.num <= |words|
    ensures r.sentiment == Positive <==> |words| > 0 && 10 * r.score.num > |words|
    ensures r.sentiment == Negative <==> |words| > 0 && 10 * r.score.num < -|words|
    ensures IsSubseq(r.positiveWords, words) && IsSubseq(r.negativeWords, words)
    ensures forall w :: multiset(r.positiveWords)[w] == if w in lex.positive then multiset(words)[w] else 0
    ensures forall w :: multiset(r.negativeWords)[w] == if w in lex.negative then multiset(words)[w] else 0
  {
    var pos := Matching(lex.positive, words);
    var neg := Matching(lex.negative, words);
    var score := Fraction(|pos| - |neg|, |words|);
    SentimentResult(score, Verdict(score), pos, neg)
  }

  /** The score of `analyze_sentiment` lies in [-1, 1], is 0 without tokens,
      and its label follows the 0.1 thresholds. */
  lemma AnalyzeScore(lex: Lexicon, words: seq<string>)
    ensures -1.0 <= Value(Analyze(lex, words).score) <= 1.0
    ensures |words| == 0 ==> Value(Analyze(lex, words).score) == 0.0 && Analyze(lex, words).sentiment == Neutral
    ensures Analyze(lex, words).sentiment == Positive <==> Value(Analyze(lex, words).score) > 0.1
    ensures Analyze(lex, words).sentiment == Negative <==> Value(Analyze(lex, words).score) < -0.1
  {
    VerdictThresholds(Analyze(lex, words).score);
  }

  /** `analyze_sentiment(text)` without a token list: segment the text first. */
  function AnalyzeText(lex: Lexicon, cut: string -> seq<string>, text: string): (r: SentimentResult)
    ensures r.score.den <= |cut(text)|
    ensures forall w :: multiset(r.positiveWords)[w] > 0 ==> w in lex.positive && w !in lex.stopwords
  {
    Analyze(lex, Segment(lex, cut, text))
  }

  /** Bag-of-words invariance: reordering the tokens changes neither the
      score nor the label. */
  lemma AnalyzePermutation(lex: Lexicon, a: seq<string>, b: seq<string>)
    requires multiset(a) == multiset(b)
    ensures Analyze(lex, a).score == Analyze(lex, b).score
    ensures Analyze(lex, a).sentiment == Analyze(lex, b).sentiment
  {
    FilterLengthPermutation(InSet(lex.positive), a, b);
    FilterLengthPermutation(InSet(lex.negative), a, b);
    assert |a| == |b| by {
      assert |multiset(a)| == |a| && |multiset(b)| == |b|;
    }
  }

  /** The worked example: after the stopword 的 is filtered, 好 and 坏 cancel
      out and the result is neutral. */
  lemma GoodBadCancel()
    ensures FilterTokens(DefaultStopwords, ["好", "坏", "的"]) == ["好", "坏"]
    ensures Value(Analyze(Default, ["好", "坏"]).score) == 0.0
    ensures Analyze(Default, ["好", "坏"]).sentiment == Neutral
    ensures Analyze(Default, ["好", "坏"]).positiveWords == ["好"]
    ensures Analyze(Default, ["好", "坏"]).negativeWords == ["坏"]
  {
    StopwordDropped();
    GoodBadPolarity();
    OppositesCancel(Default, "好", "坏");
  }

  /** One positive and one negative token give a zero, neutral score. */
  lemma OppositesCancel(lex: Lexicon, g: string, b: string)
    requires g in lex.positive && g !in lex.negative
    requires b in lex.negative && b !in lex.positive
    ensures Value(Analyze(lex, [g, b]).score) == 0.0
    ensures Analyze(lex, [g, b]).sentiment == Neutral
    ensures Analyze(lex, [g, b]).positiveWords == [g]
    ensures Analyze(lex, [g, b]).negativeWords == [b]
  {
    var ws := [g, b];
    assert ws[1..] == [b] && ws[1..][1..] == [];
    assert Filter(InSet(lex.positive), [b]) == [];
    assert Filter(InSet(lex.negative), [b]) == [b];
    assert Matching(lex.positive, ws) == [g];
    assert Matching(lex.negative, ws) == [b];
  }

  lemma GoodBadPolarity()
    ensures "好" in DefaultPositive && "好" !in DefaultNegative
    ensures "坏" in DefaultNegative && "坏" !in DefaultPositive
  {
    GoodNotNegative();
    BadNotPositive();
  }

  lemma GoodNotNegative()
    ensures "好" !in DefaultNegative
  {
  }

  lemma BadNotPositive()
    ensures "坏" !in DefaultPositive
  {
  }

  lemma StopwordDropped()
    ensures FilterTokens(DefaultStopwords, ["好", "坏", "的"]) == ["好", "坏"]
  {
    GoodNotStopword();
    BadNotStopword();
    DropLast(DefaultStopwords, "好", "坏", "的");
  }

  lemma DropLast(stop: set<string>, a: string, b: string, c: string)
    requires IsContent(stop, a) && IsContent(stop, b) && c in stop
    ensures FilterTokens(stop, [a, b, c]) == [a, b]
  {
    var p := ContentTest(stop);
    var ws := [a, b, c];
    assert ws[1..] == [b, c] && ws[1..][1..] == [c] && ws[1..][1..][1..] == [];
    assert p(a) && p(b) && !p(c);
    assert Filter(p, [c]) == [];
    assert Filter(p, [b, c]) == [b];
    assert Filter(p, ws) == [a, b];
  }

  lemma GoodNotStopword()
    ensures "好" !in DefaultStopwords
  {
    assert "好" !in Stopwords1;
    assert "好" !in Stopwords2;
    assert "好" !in Stopwords3;
    assert "好" !in Stopwords4;
    assert "好" !in Stopwords5;
  }

  lemma BadNotStopword()
    ensures "坏" !in DefaultStopwords
  {
    assert "坏" !in Stopwords1;
    assert "坏" !in Stopwords2;
    assert "坏" !in Stopwords3;
    assert "坏" !in Stopwords4;
    assert "坏" !in Stopwords5;
  }

  /** What one dialogue contributes to the sentiment word clouds: its distinct
      positive words, its distinct negative words, and its remaining tokens
      in order. */
  datatype Polarity = Polarity(positive: set<string>, negative: set<string>, neutral: seq<string>)

  function Outside(pos: set<string>, neg: set<string>): string -> bool {
    w => w !in pos && w !in neg
  }

  /** The per-dialogue split in `generate_sentiment_wordclouds`, for one
      dialogue's token list `words`. */
  function SplitWords(lex: Lexicon, words: seq<string>): (r: Polarity)
    ensures forall w :: w in r.positive <==> w in words && w in lex.positive
    ensures forall w :: w in r.negative <==> w in words && w in lex.negative
    ensures forall i :: 0 <= i < |r.neutral| ==> r.neutral[i] !in lex.positive && r.neutral[i] !in lex.negative
  {
    var res := Analyze(lex, words);
    var dpos := set w | w in res.positiveWords;
    var dneg := set w | w in res.negativeWords;
    MatchingMembers(lex.positive, words);
    MatchingMembers(lex.negative, words);
    Polarity(dpos, dneg, Filter(Outside(dpos, dneg), words))
  }

  /** The neutral tokens are exactly the tokens in neither lexicon: testing
      against the dialogue's own matched words is the same as testing against
      the lexicons. */
  lemma NeutralIsOutsideLexicon(lex: Lexicon, words: seq<string>)
    ensures SplitWords(lex, words).neutral == Filter(Outside(lex.positive, lex.negative), words)
  {
    var r := SplitWords(lex, words);
    FilterAgree(Outside(r.positive, r.negative), Outside(lex.positive, lex.negative), words);
  }

  /** Two tests that agree on every element give the same filter. */
  lemma {:induction false} FilterAgree<T>(p: T -> bool, q: T -> bool, s: seq<T>)
    requires forall i :: 0 <= i < |s| ==> p(s[i]) == q(s[i])
    ensures Filter(p, s) == Filter(q, s)
  {
    if s != [] {
      FilterAgree(p, q, s[1..]);
    }
  }

  /** With disjoint lexicons every token lands in exactly one of the three
      lists: positive, negative or neutral. */
  lemma SplitPartitionsTokens(lex: Lexicon, words: seq<string>)
    requires lex.positive !! lex.negative
    ensures |SplitWords(lex, words).neutral| + |Analyze(lex, words).positiveWords|
            + |Analyze(lex, words).negativeWords| == |words|
  {
    NeutralIsOutsideLexicon(lex, words);
    PartitionCount(lex.positive, lex.negative, words);
  }

  lemma {:induction false} PartitionCount(pos: set<string>, neg: set<string>, s: seq<string>)
    requires pos !! neg
    ensures |Filter(Outside(pos, neg), s)| + |Filter(InSet(pos), s)| + |Filter(InSet(neg), s)| == |s|
  {
    if s != [] {
      PartitionCount(pos, neg, s[1..]);
    }
  }

  /** The tokens one dialogue is split into: it is preprocessed, then
      segmented. */
  function DialogueWords(lex: Lexicon, cut: string -> seq<string>, dialogue: string): seq<string> {
    Segment(lex, cut, Preprocess(dialogue))
  }

  /** Everything the three sentiment word clouds are drawn from. The positive
      and negative pools are multisets because the source extends a list
      with a set, whose iteration order Python leaves unspecified. */
  datatype WordPools = WordPools(positive: multiset<string>, negative: multiset<string>, neutral: seq<string>)

  function Contributes(lex: Lexicon, cut: string -> seq<string>, w: string): string -> bool {
    d => w in DialogueWords(lex, cut, d)
  }

  /** The loop of `generate_sentiment_wordclouds`: every dialogue adds its
      distinct positive words, its distinct negative words and its neutral
      tokens. */
  function Pools(lex: Lexicon, cut: string -> seq<string>, dialogues: seq<string>): (r: WordPools)
    ensures forall i :: 0 <= i < |r.neutral| ==> r.neutral[i] !in lex.positive && r.neutral[i] !in lex.negative
  {
    if dialogues == [] then WordPools(multiset{}, multiset{}, [])
    else
      var p := SplitWords(lex, DialogueWords(lex, cut, dialogues[0]));
      var rest := Pools(lex, cut, dialogues[1..]);
      WordPools(multiset(p.positive) + rest.positive, multiset(p.negative) + rest.negative, p.neutral + rest.neutral)
  }

  /** A lexicon word's multiplicity in the positive (negative) pool is the
      number of dialogues whose tokens contain it: a dialogue adds each of its
      words once, however often it repeats it. */
  lemma {:induction false} PoolsCount(lex: Lexicon, cut: string -> seq<string>, dialogues: seq<string>, w: string)
    ensures Pools(lex, cut, dialogues).positive[w] == if w in lex.positive then |Filter(Contributes(lex, cut, w), dialogues)| else 0
    ensures Pools(lex, cut, dialogues).negative[w] == if w in lex.negative then |Filter(Contributes(lex, cut, w), dialogues)| else 0
  {
    if dialogues != [] {
      var c := Contributes(lex, cut, w);
      var words := DialogueWords(lex, cut, dialogues[0]);
      var p := SplitWords(lex, words);
      var rest := Pools(lex, cut, dialogues[1..]);
      PoolsCount(lex, cut, dialogues[1..], w);
      assert Pools(lex, cut, dialogues).positive == multiset(p.positive) + rest.positive;
      assert Pools(lex, cut, dialogues).negative == multiset(p.negative) + rest.negative;
      assert c(dialogues[0]) <==> w in words;
      var n := |Filter(c, dialogues)|;
      assert n == (if w in words then 1 else 0) + |Filter(c, dialogues[1..])|;
      assert multiset(p.positive)[w] == if w in words && w in lex.positive then 1 else 0;
      assert multiset(p.negative)[w] == if w in words && w in lex.negative then 1 else 0;
    }
  }

  datatype CorpusError = EmptyCorpus

  /** An independent account of the neutral pool: every token of every
      preprocessed dialogue that is in neither lexicon, dialogue after
      dialogue, in token order. */
  function NeutralOf(lex: Lexicon, cut: string -> seq<string>, dialogues: seq<string>): seq<string> {
    if dialogues == [] then []
    else Filter(Outside(lex.positive, lex.negative), DialogueWords(lex, cut, dialogues[0]))
         + NeutralOf(lex, cut, dialogues[1..])
  }

  /** The neutral pool holds every non-lexicon token of every dialogue, in
      order, and nothing else. */
  lemma {:induction false} PoolsNeutral(lex: Lexicon, cut: string -> seq<string>, dialogues: seq<string>)
    ensures Pools(lex, cut, dialogues).neutral == NeutralOf(lex, cut, dialogues)
  {
    if dialogues != [] {
      NeutralIsOutsideLexicon(lex, DialogueWords(lex, cut, dialogues[0]));
      PoolsNeutral(lex, cut, dialogues[1..]);
    }
  }

  /** `generate_sentiment_wordclouds` up to the rendering: it refuses an
      empty corpus; otherwise a lexicon word weighs in its cloud as often as
      there are dialogues using it, no other word enters the positive or
      negative cloud, and the neutral cloud holds every other token of every
      dialogue, in order. */
  function SentimentPools(lex: Lexicon, cut: string -> seq<string>, dialogues: seq<string>): (r: Result<WordPools, CorpusError>)
    ensures r.Err? <==> dialogues == []
    ensures r.Ok? ==> r.value == Pools(lex, cut, dialogues)
    ensures r.Ok? ==> forall w :: r.value.positive[w] == if w in lex.positive then |Filter(Contributes(lex, cut, w), dialogues)| else 0
    ensures r.Ok? ==> forall w :: r.value.negative[w] == if w in lex.negative then |Filter(Contributes(lex, cut, w), dialogues)| else 0
    ensures r.Ok? ==> forall i :: 0 <= i < |r.value.neutral| ==> r.value.neutral[i] !in lex.positive && r.value.neutral[i] !in lex.negative
    ensures r.Ok? ==> r.value.neutral == NeutralOf(lex, cut, dialogues)
  {
    if dialogues == [] then Err(EmptyCorpus)
    else
      PoolsCountAll(lex, cut, dialogues);
      PoolsNeutral(lex, cut, dialogues);
      Ok(Pools(lex, cut, dialogues))
  }

  lemma PoolsCountAll(lex: Lexicon, cut: string -> seq<string>, dialogues: seq<string>)
    ensures forall w :: Pools(lex, cut, dialogues).positive[w] == if w in lex.positive then |Filter(Contributes(lex, cut, w), dialogues)| else 0
    ensures forall w :: Pools(lex, cut, dialogues).negative[w] == if w in lex.negative then |Filter(Contributes(lex, cut, w), dialogues)| else 0
  {
    forall w {
      PoolsCount(lex, cut, dialogues, w);
    }
  }

  /** No word enters a pool more often than there are dialogues. */
  lemma PoolsBounded(lex: Lexicon, cut: string -> seq<string>, dialogues: seq<string>, w: string)
    ensures Pools(lex, cut, dialogues).positive[w] <= |dialogues|
    ensures Pools(lex, cut, dialogues).negative[w] <= |dialogues|
  {
    PoolsCount(lex, cut, dialogues, w);
  }
}
