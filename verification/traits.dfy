/** The keyword trait scorer `analyze_character_traits` and its textual
    summary `_generate_trait_summary`. */
module Traits {
  import opened Text
  import opened Seqs
  import opened Results
  import opened Resources
  import opened Tokenize
  import opened Normalize
  import opened Ratios

  /** `sum(word_freq.get(k, 0) for k in ks)` where `freq` is the `Counter`
      of the corpus tokens. */
  function SumFreq(ks: seq<string>, freq: multiset<string>): nat {
    if ks == [] then 0 else freq[ks[0]] + SumFreq(ks[1..], freq)
  }

  function InSeq(ks: seq<string>): string -> bool {
    w => w in ks
  }

  /** The keyword occurrences of a trait in the tokens. */
  function TraitCount(t: Trait, words: seq<string>): nat {
    SumFreq(Keywords(t), multiset(words))
  }

  /** The percentage `trait_count / total_words * 100`, 0 without tokens. */
  function Percent(t: Trait, words: seq<string>): Fraction {
    Fraction(100 * TraitCount(t, words), |words|)
  }

  /** Summing the frequencies of distinct keywords counts the tokens that
      are one of the keywords. */
  lemma {:induction false} SumFreqCountsTokens(ks: seq<string>, words: seq<string>)
    requires Distinct(ks)
    ensures SumFreq(ks, multiset(words)) == |Filter(InSeq(ks), words)|
  {
    if words == [] {
      SumFreqEmpty(ks);
    } else {
      var w := words[0];
      assert words == [w] + words[1..];
      assert multiset(words) == multiset{w} + multiset(words[1..]);
      SumFreqAdd(ks, multiset{w}, multiset(words[1..]));
      SumFreqOne(ks, w);
      SumFreqCountsTokens(ks, words[1..]);
    }
  }

  lemma {:induction false} SumFreqEmpty(ks: seq<string>)
    ensures SumFreq(ks, multiset{}) == 0
  {
    if ks != [] {
      SumFreqEmpty(ks[1..]);
    }
  }

  lemma {:induction false} SumFreqAdd(ks: seq<string>, a: multiset<string>, b: multiset<string>)
    ensures SumFreq(ks, a + b) == SumFreq(ks, a) + SumFreq(ks, b)
  {
    if ks != [] {
      SumFreqAdd(ks[1..], a, b);
    }
  }

  lemma {:induction false} SumFreqOne(ks: seq<string>, w: string)
    requires Distinct(ks)
    ensures SumFreq(ks, multiset{w}) == if w in ks then 1 else 0
  {
    if ks != [] {
      assert Distinct(ks[1..]) by {
        forall i, j | 0 <= i < j < |ks[1..]| ensures ks[1..][i] != ks[1..][j] {
          assert ks[1..][i] == ks[i + 1] && ks[1..][j] == ks[j + 1];
        }
      }
      SumFreqOne(ks[1..], w);
      if ks[0] == w {
        assert w !in ks[1..] by {
          forall k | 0 <= k < |ks[1..]| ensures ks[1..][k] != w {
            assert ks[1..][k] == ks[k + 1];
          }
        }
      }
      assert w in ks <==> ks[0] == w || w in ks[1..];
    }
  }

  /** A trait's count is the number of its keyword tokens, so it never
      exceeds the number of tokens. */
  lemma TraitCountIsKeywordTokens(t: Trait, words: seq<string>)
    ensures TraitCount(t, words) == |Filter(InSeq(Keywords(t)), words)|
    ensures TraitCount(t, words) <= |words|
  {
    KeywordsDistinct(t);
    SumFreqCountsTokens(Keywords(t), words);
  }

  /** The five percentages, one field per trait. */
  datatype Scores = Scores(
    extraversion: real,
    neuroticism: real,
    openness: real,
    agreeableness: real,
    conscientiousness: real)

  function Get(s: Scores, t: Trait): real {
    match t
    case Extraversion => s.extraversion
    case Neuroticism => s.neuroticism
    case Openness => s.openness
    case Agreeableness => s.agreeableness
    case Conscientiousness => s.conscientiousness
  }

  /** One trait's percentage before rounding: 100 times the number of that
      trait's keyword tokens over the number of tokens, 0 without tokens, and
      within [0, 100]. */
  function Score(t: Trait, words: seq<string>): (v: real)
    ensures v == Value(Fraction(100 * |Filter(InSeq(Keywords(t)), words)|, |words|))
    ensures 0.0 <= v <= 100.0
    ensures |words| == 0 ==> v == 0.0
  {
    TraitCountIsKeywordTokens(t, words);
    PercentBounds(TraitCount(t, words), |words|);
    Value(Percent(t, words))
  }

  /** The `traits` dictionary before rounding: every trait's score under its
      own name. */
  function TraitScores(words: seq<string>): Scores {
    Scores(Score(Extraversion, words), Score(Neuroticism, words), Score(Openness, words),
      Score(Agreeableness, words), Score(Conscientiousness, words))
  }

  lemma TraitScoresGet(words: seq<string>, t: Trait)
    ensures Get(TraitScores(words), t) == Score(t, words)
  {
  }

  lemma PercentBounds(count: nat, n: nat)
    requires count <= n
    ensures 0.0 <= Value(Fraction(100 * count, n)) <= 100.0
  {
    if n > 0 {
      Compare(Fraction(100 * count, n), 100.0);
    }
  }

  /** Bag-of-words invariance: reordering the tokens changes no score. */
  lemma TraitScoresPermutation(a: seq<string>, b: seq<string>)
    requires multiset(a) == multiset(b)
    ensures TraitScores(a) == TraitScores(b)
  {
    assert |a| == |b| by {
      assert |multiset(a)| == |a| && |multiset(b)| == |b|;
    }
  }

  /** The index of the first maximal value: the item `max(..., key=...)`
      returns, since it only replaces its candidate by a strictly greater
      one. */
  function FirstMax(vals: seq<real>): (k: nat)
    requires |vals| > 0
    ensures k < |vals|
    ensures forall j :: 0 <= j < |vals| ==> vals[j] <= vals[k]
    ensures forall j :: 0 <= j < k ==> vals[j] < vals[k]
  {
    if |vals| == 1 then 0
    else
      var k := FirstMax(vals[..|vals| - 1]);
      if vals[|vals| - 1] > vals[k] then |vals| - 1 else k
  }

  /** The scores in dictionary order. */
  function DictValues(s: Scores): (r: seq<real>)
    ensures |r| == |DictOrder|
    ensures forall i :: 0 <= i < |r| ==> r[i] == Get(s, DictOrder[i])
  {
    seq(|DictOrder|, i requires 0 <= i < |DictOrder| => Get(s, DictOrder[i]))
  }

  /** Where a trait stands in dictionary order. */
  function DictIndex(t: Trait): (i: nat)
    ensures i < |DictOrder| && DictOrder[i] == t
  {
    match t
    case Extraversion => 0
    case Neuroticism => 1
    case Openness => 2
    case Agreeableness => 3
    case Conscientiousness => 4
  }

  /** `max_trait`: the first trait in dictionary order with the highest score. */
  function MaxTrait(s: Scores): (m: Trait)
    ensures forall t: Trait :: Get(s, t) <= Get(s, m)
    ensures forall i, j :: 0 <= j < i < |DictOrder| && DictOrder[i] == m ==> Get(s, DictOrder[j]) < Get(s, m)
  {
    var k := FirstMax(DictValues(s));
    OrdersArePermutations();
    forall i, j | 0 <= j < i < |DictOrder| && DictOrder[i] == DictOrder[k]
      ensures Get(s, DictOrder[j]) < Get(s, DictOrder[k])
    {
      assert i == k;
      assert DictValues(s)[j] == Get(s, DictOrder[j]);
    }
    forall t: Trait ensures Get(s, t) <= Get(s, DictOrder[k]) {
      assert DictValues(s)[DictIndex(t)] == Get(s, t);
    }
    DictOrder[k]
  }

  const Header: string := "角色性格分析："

  /** The sentence for a standout trait. */
  function Primary(t: Trait): string {
    match t
    case Extraversion => OutgoingSentence
    case Neuroticism => SensitiveSentence
    case Openness => CuriousSentence
    case Agreeableness => KindSentence
    case Conscientiousness => DutifulSentence
  }

  const OutgoingSentence: string := "该角色性格外向，善于社交，喜欢与他人互动和分享。"
  const SensitiveSentence: string := "该角色情绪较为敏感，容易焦虑或紧张，对周围环境变化反应强烈。"
  const CuriousSentence: string := "该角色思想开放，富有好奇心，乐于探索新事物和接受新观念。"
  const KindSentence: string := "该角色性格温和友善，善于理解和帮助他人，注重人际关系和谐。"
  const DutifulSentence: string := "该角色做事认真负责，有强烈的责任感和使命感，重视承诺和义务。"
  const Balanced: string := "该角色性格较为平衡，没有特别突出的特质倾向。"

  /** The remark added for every trait above 1%. */
  function Secondary(t: Trait): string {
    match t
    case Extraversion => SocialRemark
    case Neuroticism => MoodRemark
    case Openness => LearningRemark
    case Agreeableness => EmpathyRemark
    case Conscientiousness => DiligenceRemark
  }

  const SocialRemark: string := "角色在社交场合表现活跃，喜欢与人交流。"
  const EmpathyRemark: string := "角色展现出较高的同理心和合作意愿。"
  const DiligenceRemark: string := "角色对待任务认真负责，注重完成质量。"
  const LearningRemark: string := "角色对新体验持开放态度，有较强的学习能力。"
  const MoodRemark: string := "角色情绪波动较大，可能容易受到外界影响。"

  /** The second line: the standout trait's sentence when the highest score
      exceeds 1.5, the balanced sentence otherwise. */
  function Opening(s: Scores): string {
    var m := MaxTrait(s);
    if Get(s, m) > 1.5 then Primary(m) else Balanced
  }

  /** The remarks for the traits of `order` scoring above 1.0, in that order. */
  function Remarks(s: Scores, order: seq<Trait>): (r: seq<string>)
    ensures |r| <= |order|
  {
    if order == [] then []
    else (if Get(s, order[0]) > 1.0 then [Secondary(order[0])] else []) + Remarks(s, order[1..])
  }

  /** The lines of the summary, without their line ends. */
  function SummaryLines(s: Scores): seq<string> {
    [Header, Opening(s)] + Remarks(s, SecondaryOrder)
  }

  /** `_generate_trait_summary(traits)`: every line followed by a newline. */
  function Summary(s: Scores): (r: string)
    ensures |r| > 0 && r[|r| - 1] == '\n'
  {
    WriteLines(SummaryLines(s))
  }

  lemma PrimaryDistinct()
    ensures forall t: Trait, u: Trait :: t != u ==> Primary(t) != Primary(u)
    ensures forall t: Trait :: Primary(t) != Balanced
  {
    forall t: Trait, u: Trait | t != u ensures Primary(t) != Primary(u) {
      assert Primary(t)[5] != Primary(u)[5];
    }
    forall t: Trait ensures Primary(t) != Balanced {
      if t == Neuroticism {
        assert Primary(t)[3] != Balanced[3];
      } else {
        assert Primary(t)[5] != Balanced[5];
      }
    }
  }

  lemma SecondaryDistinct()
    ensures forall t: Trait, u: Trait :: t != u ==> Secondary(t) != Secondary(u)
  {
    forall t: Trait, u: Trait | t != u ensures Secondary(t) != Secondary(u) {
      if {t, u} == {Openness, Conscientiousness} {
        assert Secondary(t)[3] != Secondary(u)[3];
      } else {
        assert Secondary(t)[2] != Secondary(u)[2];
      }
    }
  }

  /** The summary names a standout trait exactly when that trait is the
      first highest-scoring one and scores above 1.5. */
  lemma OpeningPrimary(s: Scores, t: Trait)
    ensures Opening(s) == Primary(t) <==> t == MaxTrait(s) && Get(s, t) > 1.5
  {
    PrimaryDistinct();
  }

  /** The summary calls the character balanced exactly when no trait scores
      above 1.5. */
  lemma OpeningBalanced(s: Scores)
    ensures Opening(s) == Balanced <==> forall t: Trait :: Get(s, t) <= 1.5
  {
    PrimaryDistinct();
  }

  /** A trait's remark is in the summary exactly when it scores above 1.0,
      independently of the standout choice. */
  lemma RemarkIff(s: Scores, t: Trait)
    ensures Secondary(t) in SummaryLines(s) <==> Get(s, t) > 1.0
  {
    SecondaryDistinct();
    OrdersArePermutations();
    RemarksMembers(s, SecondaryOrder, t);
    assert Header[0] != Secondary(t)[0] || Header[2] != Secondary(t)[2];
    assert Opening(s)[0] != Secondary(t)[0];
  }

  lemma {:induction false} RemarksMembers(s: Scores, order: seq<Trait>, t: Trait)
    requires forall u: Trait, v: Trait :: u != v ==> Secondary(u) != Secondary(v)
    ensures Secondary(t) in Remarks(s, order) <==> t in order && Get(s, t) > 1.0
  {
    if order != [] {
      RemarksMembers(s, order[1..], t);
      assert t in order <==> t == order[0] || t in order[1..];
    }
  }

  /** The test `traits[t] > 1.0` of a remark. */
  function Above(s: Scores): Trait -> bool {
    t => Get(s, t) > 1.0
  }

  /** The remark of each trait, in the given order. */
  function RemarkLines(order: seq<Trait>): (r: seq<string>)
    ensures |r| == |order|
  {
    if order == [] then [] else [Secondary(order[0])] + RemarkLines(order[1..])
  }

  /** The remarks are those of the traits above 1.0, in exactly the order
      given, and nothing else. */
  lemma {:induction false} RemarksInOrder(s: Scores, order: seq<Trait>)
    ensures Remarks(s, order) == RemarkLines(Filter(Above(s), order))
  {
    if order != [] {
      RemarksInOrder(s, order[1..]);
      if Above(s)(order[0]) {
        assert Filter(Above(s), order) == [order[0]] + Filter(Above(s), order[1..]);
      } else {
        assert Filter(Above(s), order) == Filter(Above(s), order[1..]);
      }
    }
  }

  /** The summary's lines: the header, the opening sentence, then the remarks
      of the traits above 1.0 in the order 外倾性, 宜人性, 责任心, 开放性,
      神经质. */
  lemma SummaryOrder(s: Scores)
    ensures SummaryLines(s) == [Header, Opening(s)] + RemarkLines(Filter(Above(s), SecondaryOrder))
  {
    RemarksInOrder(s, SecondaryOrder);
  }

  /** The summary always opens with the header line. */
  lemma SummaryHeader(s: Scores)
    ensures StartsWith(Summary(s), Header + "\n")
  {
    assert Summary(s) == Header + "\n" + WriteLines(SummaryLines(s)[1..]);
  }

  /** What `analyze_character_traits` returns: the token counter, the five
      scores and the summary. */
  datatype TraitReport = TraitReport(frequency: multiset<string>, traits: Scores, summary: string)

  /** `analyze_character_traits()`: nothing (`{}`) without dialogues;
      otherwise the scores of the tokens of the joined, preprocessed corpus
      and their summary. */
  function AnalyzeTraits(lex: Lexicon, cut: string -> seq<string>, dialogues: seq<string>): (r: Option<TraitReport>)
    ensures r.None? <==> dialogues == []
    ensures r.Some? ==> forall t: Trait ::
      Get(r.value.traits, t) == Score(t, Segment(lex, cut, CorpusText(dialogues)))
    ensures r.Some? ==> forall t: Trait :: 0.0 <= Get(r.value.traits, t) <= 100.0
    ensures r.Some? ==> forall w :: w in r.value.frequency ==> w != "" && w !in lex.stopwords
    ensures r.Some? ==> StartsWith(r.value.summary, Header + "\n")
    ensures r.Some? ==> r.value.summary == Summary(r.value.traits)
    ensures r.Some? ==> r.value.frequency == multiset(Segment(lex, cut, CorpusText(dialogues)))
  {
    if dialogues == [] then None
    else
      var words := Segment(lex, cut, CorpusText(dialogues));
      var scores := TraitScores(words);
      forall t: Trait ensures Get(scores, t) == Score(t, words) {
        TraitScoresGet(words, t);
      }
      SummaryHeader(scores);
      Some(TraitReport(multiset(words), scores, Summary(scores)))
  }

  /** 必须 and 应该 are listed as conscientiousness keywords but are default
      stopwords, so the conscientiousness count only ever sees the other six
      keywords. */
  lemma StopwordKeywordsContributeNothing(cut: string -> seq<string>, text: string)
    ensures TraitCount(Conscientiousness, Segment(Default, cut, text))
         == SumFreq(Keywords(Conscientiousness)[2..], multiset(Segment(Default, cut, text)))
  {
    var ks := Keywords(Conscientiousness);
    StopwordKeywordsNeverSurvive(cut, text);
    assert ks[0] == "必须" && ks[1] == "应该";
    SkipAbsent(ks, multiset(Segment(Default, cut, text)));
  }

  /** Keywords that never occur add nothing to the sum. */
  lemma SkipAbsent(ks: seq<string>, m: multiset<string>)
    requires |ks| >= 2 && m[ks[0]] == 0 && m[ks[1]] == 0
    ensures SumFreq(ks, m) == SumFreq(ks[2..], m)
  {
    assert ks[1..][1..] == ks[2..];
  }
}
