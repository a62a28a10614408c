/** `segment_text`: segmentation followed by stopword filtering. The segmenter
    itself (`jieba.cut`) is a parameter: the model only knows it maps a text to
    a sequence of tokens, the same tokens for the same text. */
module Tokenize {
  import opened Seqs
  import opened Resources

  /** A token that survives the filter: non-empty and not a stopword. */
  predicate IsContent(stop: set<string>, w: string) {
    w != "" && w !in stop
  }

  function ContentTest(stop: set<string>): string -> bool {
    w => IsContent(stop, w)
  }

  /** `[word for word in words if word and word not in self.stopwords]`: the
      in-order subsequence of `words` holding every occurrence of every
      non-empty non-stopword and nothing else. */
  function FilterTokens(stop: set<string>, words: seq<string>): (r: seq<string>)
    ensures forall i :: 0 <= i < |r| ==> r[i] != "" && r[i] !in stop
    ensures IsSubseq(r, words)
    ensures forall w :: multiset(r)[w] == if w != "" && w !in stop then multiset(words)[w] else 0
  {
    FilterIsSubseq(ContentTest(stop), words);
    FilterCounts(ContentTest(stop), words);
    Filter(ContentTest(stop), words)
  }

  /** `segment_text(text)` with segmenter `cut`. */
  function Segment(lex: Lexicon, cut: string -> seq<string>, text: string): (r: seq<string>)
    ensures forall i :: 0 <= i < |r| ==> r[i] != "" && r[i] !in lex.stopwords
    ensures |r| <= |cut(text)|
  {
    FilterTokens(lex.stopwords, cut(text))
  }

  /** A token list that is already clean passes the filter unchanged. */
  lemma FilterTokensIdempotent(stop: set<string>, words: seq<string>)
    ensures FilterTokens(stop, FilterTokens(stop, words)) == FilterTokens(stop, words)
  {
    FilterIdempotent(ContentTest(stop), words);
  }

  /** 必须 and 应该 are keywords of the conscientiousness trait, but they are
      also default stopwords, so no segmented text ever contains them. */
  lemma StopwordKeywordsNeverSurvive(cut: string -> seq<string>, text: string)
    ensures "必须" in Keywords(Conscientiousness) && "应该" in Keywords(Conscientiousness)
    ensures multiset(Segment(Default, cut, text))["必须"] == 0
    ensures multiset(Segment(Default, cut, text))["应该"] == 0
  {
    assert Keywords(Conscientiousness)[0] == "必须";
    assert Keywords(Conscientiousness)[1] == "应该";
  }
}
