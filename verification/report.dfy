/** `run_complete_analysis` up to its side effects: the basic statistics,
    the sentiment distribution of the first ten dialogues, the trait report
    and the keyword step's empty-corpus guard. */
module Report {
  import opened Results
  import opened Ratios
  import opened Resources
  import opened Normalize
  import opened Sentiment
  import opened Traits

  /** The number of dialogues, their total length in characters, and the
      mean length (`total_chars / total_dialogues`, or 0 without dialogues). */
  datatype BasicStats = BasicStats(total: nat, chars: nat, average: Fraction)

  /** All dialogues run together. */
  function Concat(ds: seq<string>): string {
    if ds == [] then [] else ds[0] + Concat(ds[1..])
  }

  /** `sum(len(d) for d in self.dialogues)`. */
  function TotalChars(ds: seq<string>): nat {
    if ds == [] then 0 else |ds[0]| + TotalChars(ds[1..])
  }

  /** Summing the lengths counts every character of every dialogue once. */
  lemma {:induction false} TotalCharsIsConcat(ds: seq<string>)
    ensures TotalChars(ds) == |Concat(ds)|
    decreases |ds|
  {
    if ds != [] {
      TotalCharsIsConcat(ds[1..]);
    }
  }

  function Stats(ds: seq<string>): (s: BasicStats)
    ensures s.total == |ds|
    ensures s.chars == |Concat(ds)|
    ensures s.average.den == |ds| && s.average.num == |Concat(ds)|
    ensures ds == [] ==> Value(s.average) == 0.0
  {
    TotalCharsIsConcat(ds);
    BasicStats(|ds|, TotalChars(ds), Fraction(TotalChars(ds), |ds|))
  }

  /** Every dialogue is at least `lo` and at most `hi` characters long. */
  predicate LengthsWithin(ds: seq<string>, lo: nat, hi: nat) {
    forall d :: d in ds ==> lo <= |d| <= hi
  }

  lemma TailWithin(ds: seq<string>, lo: nat, hi: nat)
    requires ds != [] && LengthsWithin(ds, lo, hi)
    ensures lo <= |ds[0]| <= hi && LengthsWithin(ds[1..], lo, hi)
  {
    assert ds[0] in ds;
    forall d | d in ds[1..] ensures lo <= |d| <= hi {
      assert d in ds;
    }
  }

  lemma MulSucc(x: nat, n: nat)
    ensures x * (n + 1) == x + x * n
  {
  }

  lemma {:induction false} TotalCharsAtLeast(ds: seq<string>, lo: nat, hi: nat)
    requires LengthsWithin(ds, lo, hi)
    ensures lo * |ds| <= TotalChars(ds)
    decreases |ds|
  {
    if ds != [] {
      TailWithin(ds, lo, hi);
      TotalCharsAtLeast(ds[1..], lo, hi);
      MulSucc(lo, |ds[1..]|);
    }
  }

  lemma {:induction false} TotalCharsAtMost(ds: seq<string>, lo: nat, hi: nat)
    requires LengthsWithin(ds, lo, hi)
    ensures TotalChars(ds) <= hi * |ds|
    decreases |ds|
  {
    if ds != [] {
      TailWithin(ds, lo, hi);
      TotalCharsAtMost(ds[1..], lo, hi);
      MulSucc(hi, |ds[1..]|);
    }
  }

  /** The mean length lies between the shortest and the longest dialogue. */
  lemma AverageWithin(ds: seq<string>, lo: nat, hi: nat)
    requires ds != [] && LengthsWithin(ds, lo, hi)
    ensures lo as real <= Value(Stats(ds).average) <= hi as real
  {
    TotalCharsAtLeast(ds, lo, hi);
    TotalCharsAtMost(ds, lo, hi);
    MeanWithin(TotalChars(ds), |ds|, lo, hi);
  }

  lemma MeanWithin(a: nat, n: nat, lo: nat, hi: nat)
    requires n > 0 && lo * n <= a <= hi * n
    ensures lo as real <= Value(Fraction(a, n)) <= hi as real
  {
    var q := Value(Fraction(a, n));
    DivMul(a as real, n as real);
    assert q * n as real == a as real;
    if q < lo as real {
      MulStrict(q, lo as real, n as real);
    }
    if q > hi as real {
      MulStrict(hi as real, q, n as real);
    }
  }

  /** Only the first ten dialogues are scored for the distribution. */
  const SampleSize: nat := 10

  function Sample(ds: seq<string>): (r: seq<string>)
    ensures |r| <= SampleSize && |r| <= |ds|
    ensures |ds| >= SampleSize ==> |r| == SampleSize
    ensures |ds| < SampleSize ==> r == ds
    ensures forall i :: 0 <= i < |r| ==> r[i] == ds[i]
  {
    if |ds| <= SampleSize then ds else ds[..SampleSize]
  }

  /** The labels of the given dialogues, each analysed on its raw text. */
  function Labels(lex: Lexicon, cut: string -> seq<string>, ds: seq<string>): seq<Label> {
    if ds == [] then [] else [AnalyzeText(lex, cut, ds[0]).sentiment] + Labels(lex, cut, ds[1..])
  }

  /** An independent count: how many of the dialogues get label `l`. */
  function Tally(lex: Lexicon, cut: string -> seq<string>, ds: seq<string>, l: Label): nat {
    if ds == [] then 0
    else (if AnalyzeText(lex, cut, ds[0]).sentiment == l then 1 else 0) + Tally(lex, cut, ds[1..], l)
  }

  /** `Counter(sentiments)` over the first ten dialogues. */
  function Distribution(lex: Lexicon, cut: string -> seq<string>, ds: seq<string>): (m: multiset<Label>)
    ensures |m| == |Sample(ds)|
    ensures forall l :: m[l] <= |Sample(ds)|
  {
    LabelsLength(lex, cut, Sample(ds));
    multiset(Labels(lex, cut, Sample(ds)))
  }

  lemma {:induction false} LabelsLength(lex: Lexicon, cut: string -> seq<string>, ds: seq<string>)
    ensures |Labels(lex, cut, ds)| == |ds|
    decreases |ds|
  {
    if ds != [] {
      LabelsLength(lex, cut, ds[1..]);
    }
  }

  lemma {:induction false} LabelsTally(lex: Lexicon, cut: string -> seq<string>, ds: seq<string>, l: Label)
    ensures multiset(Labels(lex, cut, ds))[l] == Tally(lex, cut, ds, l)
    decreases |ds|
  {
    if ds != [] {
      LabelsTally(lex, cut, ds[1..], l);
      var h := [AnalyzeText(lex, cut, ds[0]).sentiment];
      assert Labels(lex, cut, ds) == h + Labels(lex, cut, ds[1..]);
      assert multiset(h + Labels(lex, cut, ds[1..])) == multiset(h) + multiset(Labels(lex, cut, ds[1..]));
    }
  }

  /** The count printed for each label is the number of sampled dialogues
      the sentiment analysis gives that label. */
  lemma DistributionCounts(lex: Lexicon, cut: string -> seq<string>, ds: seq<string>, l: Label)
    ensures Distribution(lex, cut, ds)[l] == Tally(lex, cut, Sample(ds), l)
  {
    LabelsTally(lex, cut, Sample(ds), l);
  }

  lemma {:induction false} TallyPartition(lex: Lexicon, cut: string -> seq<string>, ds: seq<string>)
    ensures Tally(lex, cut, ds, Positive) + Tally(lex, cut, ds, Negative) + Tally(lex, cut, ds, Neutral) == |ds|
    decreases |ds|
  {
    if ds != [] {
      TallyPartition(lex, cut, ds[1..]);
    }
  }

  /** The three counts add up to the sample size. */
  lemma DistributionTotal(lex: Lexicon, cut: string -> seq<string>, ds: seq<string>)
    ensures Distribution(lex, cut, ds)[Positive] + Distribution(lex, cut, ds)[Negative]
            + Distribution(lex, cut, ds)[Neutral] == |Sample(ds)|
  {
    DistributionCounts(lex, cut, ds, Positive);
    DistributionCounts(lex, cut, ds, Negative);
    DistributionCounts(lex, cut, ds, Neutral);
    TallyPartition(lex, cut, Sample(ds));
  }

  /** Dialogues after the tenth never change the distribution. */
  lemma DistributionIgnoresRest(lex: Lexicon, cut: string -> seq<string>, ds: seq<string>, more: seq<string>)
    requires |ds| >= SampleSize
    ensures Distribution(lex, cut, ds + more) == Distribution(lex, cut, ds)
  {
    assert Sample(ds + more) == Sample(ds);
  }

  /** `extract_keywords()`: no keywords without dialogues; otherwise the
      keyword extractor `tfidf`, which is not part of this model, applied to
      the joined preprocessed corpus. */
  function CorpusKeywords(tfidf: string -> seq<(string, real)>, ds: seq<string>): (r: seq<(string, real)>)
    ensures ds == [] ==> r == []
    ensures ds != [] ==> r == tfidf(CorpusText(ds))
  {
    if ds == [] then [] else tfidf(CorpusText(ds))
  }

  /** The keywords see the dialogues only after preprocessing: two corpora
      whose dialogues preprocess alike, one by one, get the same keywords. */
  lemma KeywordsIgnoreDeletedCharacters(tfidf: string -> seq<(string, real)>, ds: seq<string>, es: seq<string>)
    requires |ds| == |es|
    requires forall i :: 0 <= i < |ds| ==> Preprocess(ds[i]) == Preprocess(es[i])
    ensures CorpusKeywords(tfidf, ds) == CorpusKeywords(tfidf, es)
  {
    CorpusTextOfPreprocessed(ds, es);
  }

  /** What the results file holds: the basic statistics, the sentiment
      counts of the first ten dialogues, the trait report and the keywords. */
  datatype Analysis = Analysis(stats: BasicStats, sample: multiset<Label>, traits: TraitReport,
                               keywords: seq<(string, real)>)

  /** The analysis of a loaded corpus. With no dialogues the source stops
      with a `KeyError` when it reads the scores out of the empty trait
      result; the model reports that as `EmptyCorpus`. */
  function RunAnalysis(lex: Lexicon, cut: string -> seq<string>, tfidf: string -> seq<(string, real)>,
                       ds: seq<string>): (r: Result<Analysis, CorpusError>)
    ensures r.Err? <==> ds == []
    ensures r.Ok? ==> r.value.stats == Stats(ds) && r.value.stats.total == |ds| && r.value.stats.chars == |Concat(ds)|
    ensures r.Ok? ==> r.value.sample == Distribution(lex, cut, ds) && |r.value.sample| == |Sample(ds)|
    ensures r.Ok? ==> forall l :: r.value.sample[l] == Tally(lex, cut, Sample(ds), l)
    ensures r.Ok? ==> Some(r.value.traits) == AnalyzeTraits(lex, cut, ds)
    ensures r.Ok? ==> r.value.keywords == tfidf(CorpusText(ds))
  {
    match AnalyzeTraits(lex, cut, ds)
    case None => Err(EmptyCorpus)
    case Some(report) =>
      forall l ensures Distribution(lex, cut, ds)[l] == Tally(lex, cut, Sample(ds), l) {
        DistributionCounts(lex, cut, ds, l);
      }
      Ok(Analysis(Stats(ds), Distribution(lex, cut, ds), report, CorpusKeywords(tfidf, ds)))
  }

  /** The mean length in the results lies between the shortest and the
      longest dialogue. */
  lemma RunAverageWithin(lex: Lexicon, cut: string -> seq<string>, tfidf: string -> seq<(string, real)>,
                         ds: seq<string>, lo: nat, hi: nat)
    requires LengthsWithin(ds, lo, hi)
    requires RunAnalysis(lex, cut, tfidf, ds).Ok?
    ensures lo as real <= Value(RunAnalysis(lex, cut, tfidf, ds).value.stats.average) <= hi as real
  {
    AverageWithin(ds, lo, hi);
  }
}
