# Caleb dialogue analysis, modelled in Dafny

This project models the text-processing core of a small Python toolkit that
studies one game character, Caleb. The pipeline has three parts:

- It pulls Caleb's lines out of script files. There are three extractors,
  each with slightly different rules.
- It loads the resulting corpus from `.txt`, `.csv` or `.json`.
- It normalises and tokenises the corpus, scores it against a small
  sentiment lexicon and five personality-trait keyword lists, and writes a
  templated trait summary.

Every stage is a pure function over strings, sequences and integer counts:

| file | module | what it models |
|---|---|---|
| `text.dfy` | `Text` | `str.strip`, ASCII `lower`, `in` on strings, `startswith`/`endswith`, text-mode line reading and the one-line-per-utterance writer |
| `seqs.dfy` | `Seqs` | list comprehension filters and the subsequence order |
| `resources.dfy` | `Results`, `Resources` | `Option`/`Result`; the default stopwords and sentiment lexicon, the five traits, their keyword lists and the two iteration orders |
| `tokenize.dfy` | `Tokenize` | the filter half of `segment_text` |
| `normalize.dfy` | `Normalize` | `preprocess_text`, `clean_text` and the joined corpus text |
| `ratio.dfy` | `Ratios` | exact quotients standing in for float division |
| `sentiment.dfy` | `Sentiment` | `analyze_sentiment` and the word pools of `generate_sentiment_wordclouds` |
| `traits.dfy` | `Traits` | `analyze_character_traits` and `_generate_trait_summary` |
| `loader.dfy` | `Loader` | `load_dialogues_from_file` over already-parsed JSON and CSV |
| `extract.dfy` | `Extraction` | what the three extractors share: the denylist, the per-line and per-directory loops, and the writer/loader round trip |
| `strict.dfy` | `StrictExtractor` | `extract_caleb_dialogues` in analyze_caleb_dialogues.py |
| `anycase.dfy` | `AnyCaseExtractor` | the extraction loop of process_caleb_data.py |
| `prefix.dfy` | `PrefixExtractor` | the extraction loop of extract_caleb.py |
| `report.dfy` | `Report` | the basic statistics, the first-ten sentiment distribution, the keyword guard and the run as a whole |

Some inputs come from outside the modelled code, so the model takes them as
parameters and never interprets them:

- The `jieba` segmenter is a function `cut: string -> seq<string>`.
- The TF-IDF keyword extractor is a function `tfidf`.
- The CSV and JSON parsers are functions that return `None` when they
  raise.
- `str()` applied to a non-string JSON value is a function `render`.
- A file is its text, or `None` when opening or reading it raises.
- A directory is the sequence of its entries in listing order.

## Reading the model against the code

Points where the three scripts differ from one another, or where the code does something its comments do not say:

- Only process_caleb_data.py matches the speaker name case-insensitively.
  - analyze_caleb_dialogues.py accepts exactly `Caleb`, `caleb` or `CALEB`.
  - extract_caleb.py accepts `Caleb` only, spelled exactly.
  - `AnyCaseExtractor.DisagreeOnMixedCase` and `AnyCaseExtractor.MixedCaseLine` prove the resulting difference.
- extract_caleb.py has one `try` around the whole run. An unreadable file
  ends the run and nothing is written (`PrefixExtractor.Extract`). The other
  two extractors skip that file and continue.
- The sentiment distribution in `run_complete_analysis` scores only the first
  ten dialogues, on their raw text. It does not score the whole corpus.
  The word-cloud pools, in contrast, preprocess every dialogue before
  segmenting it.
- With no dialogues, `analyze_character_traits` returns `{}`. Reading
  `['traits']` from that raises a `KeyError`, so no empty-corpus report is
  ever written. `Report.RunAnalysis` returns `EmptyCorpus` for that case.
- Ties for the highest trait go to the first trait in dictionary order:
  外倾性, 神经质, 开放性, 宜人性, 责任心.
- The conscientiousness keywords 必须 and 应该 are also default stopwords.
  Segmentation therefore removes them before counting, and they never add
  to the score.
- A JSON list that is not entirely records is turned into text element by
  element, whatever the elements are. An empty JSON list counts as a list of
  records that carry every field, so it loads as zero dialogues.
- `.lower()` and `re.IGNORECASE` are modelled on ASCII letters only. For the
  strings they are compared with (`caleb`, `jpg`, `png`, `图片`, `.txt`,
  `.csv`, `.json`) no other character lowers or folds onto them, so this is
  exact for those comparisons.
- The label thresholds are decided on integers. For the exact quotient, a
  score above 0.1 is the same as `10 * (pos - neg) > n`, and
  `Sentiment.VerdictThresholds` proves that this agrees with the comparison
  on real numbers. The source divides in floating point and compares with
  the double nearest 0.1; see "## Left out".

## Model

| member | source | states |
|---|---|---|
| Text.Strip | analyze_caleb_dialogues.py:38 | `strip()` returns one contiguous piece of the input with only whitespace before and after it, and no whitespace at either of its ends. It is empty exactly when the line is all whitespace. |
| Text.ReadWriteLines | analyze_caleb_dialogues.py:66-68 | Lines without a terminator, written one per line with `'\n'` and read back in text mode, are the same lines in the same order. |
| Text.LowerContains | analyze_caleb_dialogues.py:58 | If a text contains a needle, the lowered text contains the lowered needle. |
| Text.UnlowerContains | analyze_caleb_dialogues.py:58 | An occurrence in the lowered text is the lowering of an occurrence in the text itself. |
| Text.IndexOf | extract_caleb.py:22 | `split(c, 1)` cuts at the first occurrence of `c`: that position holds `c` and nothing before it does. |
| Resources.OrdersArePermutations | character_dialogue_analyzer.py:333-339 | The dictionary order and the order of the secondary remarks each list all five traits exactly once. The five dictionary keys are distinct. |
| Resources.KeywordsDistinct | character_dialogue_analyzer.py:342-348 | No trait's keyword list repeats a word. |
| Resources.DefaultLexiconDisjoint | character_dialogue_analyzer.py:57-70 | No default sentiment word is both positive and negative. |
| Tokenize.FilterTokens | character_dialogue_analyzer.py:135 | The stopword filter keeps only non-empty non-stopwords, in order, and keeps every occurrence of each of them. |
| Tokenize.Segment | character_dialogue_analyzer.py:130-136 | `segment_text` never yields an empty token or a stopword, and yields no more tokens than the segmenter. |
| Tokenize.FilterTokensIdempotent | character_dialogue_analyzer.py:135 | Filtering an already filtered token list changes nothing. |
| Tokenize.StopwordKeywordsNeverSurvive | character_dialogue_analyzer.py:52 | 必须 and 应该 are conscientiousness keywords, yet never appear in a segmented text. |
| Normalize.BlankOutBlanks | character_dialogue_analyzer.py:125 | After the first substitution no `+` and no whitespace other than the plain space is left. A text already in that form is unchanged, and each character either stays or becomes one space. |
| Normalize.BlankOutIdempotent | character_dialogue_analyzer.py:125 | Applying the first substitution twice is the same as applying it once. |
| Normalize.Preprocess | character_dialogue_analyzer.py:122-128 | `preprocess_text` yields only CJK ideographs U+4E00–U+9FA5, ASCII letters, digits and plain spaces, with no space at either end. |
| Normalize.PreprocessIdempotent | character_dialogue_analyzer.py:122-128 | Preprocessing a preprocessed text changes nothing. |
| Normalize.PreprocessFixed | character_dialogue_analyzer.py:122-128 | Any text of word characters and inner spaces is already preprocessed. |
| Normalize.PreprocessKeepsWordChars | character_dialogue_analyzer.py:126 | Apart from spaces, the output holds exactly the input's word characters in order: none lost and none invented. |
| Normalize.PreprocessKeepsSpacing | character_dialogue_analyzer.py:125 | A run of n whitespace or `+` characters between two words becomes exactly n spaces. Runs are not collapsed. |
| Normalize.CorpusText | character_dialogue_analyzer.py:326 | The joined corpus holds only word characters and spaces. |
| Normalize.CorpusTextOfPreprocessed | character_dialogue_analyzer.py:326 | The joined corpus depends on each dialogue only through its preprocessed form. |
| Normalize.CleanText | word_cloud_generator.py:18-22 | `clean_text` keeps only word characters and whitespace, and never lengthens the text. |
| Normalize.CleanTextIsOrderedFilter | word_cloud_generator.py:21 | `clean_text` is an in-order subsequence of its input that keeps every occurrence of every allowed character. |
| Normalize.CleanTextIdempotent | word_cloud_generator.py:21 | Cleaning a cleaned text changes nothing. |
| Normalize.PreprocessIsCleanTextBlankedAndTrimmed | character_dialogue_analyzer.py:125-127 | Without `+`, `preprocess_text` is `clean_text` followed by turning whitespace into spaces and trimming. |
| Normalize.BlankOutCommutes | character_dialogue_analyzer.py:125-126 | Without `+`, deleting and then blanking gives the same result as blanking and then deleting. |
| Normalize.NormalisersDifferOnEnds | word_cloud_generator.py:21 | `clean_text` keeps ` a\t` as it is, while `preprocess_text` trims it to `a`. |
| Normalize.PreprocessTrimsEnds | character_dialogue_analyzer.py:127 | `preprocess_text(" a\t")` is `a`. |
| Normalize.NormalisersDifferOnPlus | character_dialogue_analyzer.py:125 | `a+b` becomes `ab` under `clean_text` and `a b` under `preprocess_text`. |
| Normalize.CleanTextDropsPlus | word_cloud_generator.py:21 | `clean_text` deletes `+`. |
| Ratios.Compare | character_dialogue_analyzer.py:154-159 | With a positive denominator, comparing the quotient with a threshold means comparing the numerator with threshold times denominator. |
| Sentiment.Matching | character_dialogue_analyzer.py:165-166 | The matched-word lists are in-order subsequences of the tokens that keep every lexicon token, each occurrence included. |
| Sentiment.MatchingMembers | character_dialogue_analyzer.py:165-166 | A word is in a matched list exactly when it is a token and in the lexicon. |
| Sentiment.Verdict | character_dialogue_analyzer.py:154-159 | With no tokens the label is neutral. A positive label implies more positive than negative tokens, and a negative label the reverse. |
| Sentiment.VerdictThresholds | character_dialogue_analyzer.py:148-159 | The score lies in [-1, 1]. The label is positive exactly when the score exceeds 0.1, and negative exactly when it is below -0.1. |
| Sentiment.Analyze | character_dialogue_analyzer.py:138-167 | The score's numerator is the number of positive tokens minus the number of negative tokens, and its denominator is the number of tokens. The label follows the ±1/10 thresholds in both directions. Both word lists are in-order filters of the tokens. |
| Sentiment.AnalyzeScore | character_dialogue_analyzer.py:148-159 | As a real number, the score lies in [-1, 1]. It is 0 and neutral without tokens, and the labels match the 0.1 thresholds. |
| Sentiment.AnalyzeText | character_dialogue_analyzer.py:140-141 | Without a token list the text is segmented first. No positive word found is a stopword. |
| Sentiment.AnalyzePermutation | character_dialogue_analyzer.py:144-152 | Reordering the tokens changes neither the score nor the label. |
| Sentiment.GoodBadCancel | character_dialogue_analyzer.py:135-159 | For tokens 好, 坏, 的 with the default resources, 的 is filtered out, the score is 0 and neutral, and the two word lists are [好] and [坏]. |
| Sentiment.OppositesCancel | character_dialogue_analyzer.py:144-159 | One positive and one negative token give a zero, neutral score. |
| Sentiment.SplitWords | character_dialogue_analyzer.py:249-256 | A dialogue's positive (negative) word set holds exactly its positive (negative) lexicon tokens. Its neutral tokens are in neither lexicon. |
| Sentiment.NeutralIsOutsideLexicon | character_dialogue_analyzer.py:256 | Testing against the dialogue's own matched words selects the same neutral tokens as testing against the lexicons. |
| Sentiment.SplitPartitionsTokens | character_dialogue_analyzer.py:249-256 | With disjoint lexicons every token is in exactly one of the positive, negative and neutral lists. |
| Sentiment.Pools | character_dialogue_analyzer.py:243-257 | No neutral pool word is in either lexicon. |
| Sentiment.PoolsNeutral | character_dialogue_analyzer.py:243-257 | The neutral pool is every token of every preprocessed dialogue that is in neither lexicon, dialogue after dialogue and in token order, and nothing else. |
| Sentiment.PoolsCount | character_dialogue_analyzer.py:249-253 | A word's multiplicity in the positive (negative) pool is the number of dialogues that contain it, provided it is in that lexicon. Otherwise it is 0. |
| Sentiment.SentimentPools | character_dialogue_analyzer.py:231-257 | The word clouds refuse exactly an empty corpus. Otherwise a lexicon word weighs in the positive (negative) cloud as often as there are dialogues using it, no other word enters those clouds, and the neutral cloud is every non-lexicon token of every dialogue, in order. |
| Sentiment.PoolsBounded | character_dialogue_analyzer.py:252-253 | No word enters a pool more often than there are dialogues. |
| Traits.SumFreqCountsTokens | character_dialogue_analyzer.py:353 | Summing the counter's frequencies over distinct keywords counts the tokens that are keywords. |
| Traits.TraitCountIsKeywordTokens | character_dialogue_analyzer.py:352-353 | A trait's count is its number of keyword tokens, never more than the number of tokens. |
| Traits.Score | character_dialogue_analyzer.py:351-358 | A trait's percentage is 100 × its keyword tokens / all tokens. It is 0 without tokens and lies within [0, 100]. |
| Traits.TraitScoresPermutation | character_dialogue_analyzer.py:330-354 | Reordering the tokens changes no trait score. |
| Traits.FirstMax | character_dialogue_analyzer.py:374 | `max` returns an index whose value no other value exceeds, and every value before it is strictly smaller. |
| Traits.MaxTrait | character_dialogue_analyzer.py:374 | The chosen trait scores highest. Every trait before it in dictionary order scores strictly less. |
| Traits.Summary | character_dialogue_analyzer.py:369-401 | The summary is non-empty and ends with a newline. |
| Traits.PrimaryDistinct | character_dialogue_analyzer.py:376-387 | The five standout sentences and the balanced sentence are all different. |
| Traits.SecondaryDistinct | character_dialogue_analyzer.py:390-399 | The five remarks are all different. |
| Traits.OpeningPrimary | character_dialogue_analyzer.py:374-385 | The summary names trait t as standout exactly when t is the first highest-scoring trait and scores above 1.5. |
| Traits.OpeningBalanced | character_dialogue_analyzer.py:374-387 | The summary says "balanced" exactly when no trait scores above 1.5. |
| Traits.RemarkIff | character_dialogue_analyzer.py:389-399 | A trait's remark is in the summary exactly when that trait scores above 1.0, whatever the standout choice. |
| Traits.RemarksMembers | character_dialogue_analyzer.py:389-399 | A remark is among the appended remarks exactly when its trait is in the order and scores above 1.0. |
| Traits.RemarksInOrder | character_dialogue_analyzer.py:390-399 | The remarks are those of the traits scoring above 1.0, each once, in exactly the order the tests are written. |
| Traits.SummaryOrder | character_dialogue_analyzer.py:369-401 | The summary's lines are the header, the opening sentence, then the remarks for 外倾性, 宜人性, 责任心, 开放性, 神经质 in that order, each only when its score exceeds 1.0. |
| Traits.SummaryHeader | character_dialogue_analyzer.py:371 | The summary always starts with the header line. |
| Traits.AnalyzeTraits | character_dialogue_analyzer.py:319-367 | The result is empty exactly without dialogues. Otherwise every trait's score is its keyword percentage over the segmented, preprocessed, joined corpus, and lies in [0, 100]. The counter is the multiset of the corpus tokens and holds no stopword. The summary is `_generate_trait_summary` of the scores, starting with the header. |
| Traits.StopwordKeywordsContributeNothing | character_dialogue_analyzer.py:347 | With the default stopwords, the conscientiousness count is the count of its last six keywords alone. |
| Loader.Extension | character_dialogue_analyzer.py:76 | `splitext` yields either nothing or a suffix of the path that starts with its only dot and holds no slash. |
| Loader.ExtensionOfName | character_dialogue_analyzer.py:76 | `name.x` has extension `.x` when the name does not end in a dot or slash. |
| Loader.LeadingDotsAreNoExtension | character_dialogue_analyzer.py:76 | A file name whose only dots lead it, such as `.txt`, has no extension. |
| Loader.TextDialogues | character_dialogue_analyzer.py:81 | The text reader never yields more dialogues than there are lines. |
| Loader.TextDialoguesOfLines | character_dialogue_analyzer.py:81 | Stripped, non-blank lines come back unchanged and in order. |
| Loader.TextDialoguesAppend | character_dialogue_analyzer.py:81 | The dialogues of two stretches of a file are the dialogues of each, concatenated. |
| Loader.TextDialoguesAreLines | character_dialogue_analyzer.py:81 | Every dialogue read from text is stripped, non-empty and a single line. |
| Loader.FirstField | character_dialogue_analyzer.py:98-105 | The `for ... else` picks the first of the candidate fields that every record has, and none exactly when no field qualifies. |
| Loader.FromJson | character_dialogue_analyzer.py:90-111 | Fails exactly for a non-list (NotAList) or for records without a common field (NoDialogueField). Records yield the first common field's values. Other lists yield each element as text, strings unchanged. |
| Loader.EmptyJsonList | character_dialogue_analyzer.py:96-102 | An empty JSON list loads as no dialogues. |
| Loader.FromTableOnlyDialogueColumn | character_dialogue_analyzer.py:84-89 | Adding, replacing or removing any column other than `dialogue` never changes whether a CSV loads or what it loads as. |
| Loader.Load | character_dialogue_analyzer.py:72-120 | The lowered extension decides. Only `.txt`, `.csv` and `.json` are supported. An unreadable file of a supported kind fails with ReadFailed, and a parser error fails with ParseFailed. A `.txt` file loads as its stripped non-blank lines. Parsed `.json` and `.csv` data defer to their branches. |
| Loader.LoadWritten | character_dialogue_analyzer.py:78-81 | A file of stripped non-empty lines written one per line loads back as exactly those lines. |
| Extraction.Accept | analyze_caleb_dialogues.py:58 | A capture is kept, unchanged, exactly when it is non-empty and contains no spelling of `jpg`, `png` or `图片` in any mix of ASCII cases. A refused non-empty capture contains such a spelling. |
| Extraction.DeniedIff | analyze_caleb_dialogues.py:58 | The test on the lowered text is the same as asking whether the text contains `jpg`, `png` or `图片` in any mix of ASCII cases. |
| Extraction.Collect | analyze_caleb_dialogues.py:37-59 | A file yields at most one utterance per line. |
| Extraction.FromEntry | analyze_caleb_dialogues.py:31-35 | A non-`.txt` or unreadable file yields nothing. |
| Extraction.ExtractAll | analyze_caleb_dialogues.py:30-63 | The nested loop over files and lines produces exactly the directory's utterances in file-then-line order, and counts them. |
| Extraction.ExtractLines | analyze_caleb_dialogues.py:37-59 | The loop over one file's lines produces exactly that file's utterances in line order. |
| Extraction.CollectAppend | analyze_caleb_dialogues.py:37-59 | The utterances of two stretches of lines are those of each, in order. |
| Extraction.CollectSources | analyze_caleb_dialogues.py:37-59 | Every utterance is the extraction of some line of the file. |
| Extraction.CollectAtMostNonBlank | analyze_caleb_dialogues.py:38-40 | Blank lines are skipped, so a file yields no more utterances than it has non-blank lines. |
| Extraction.CaptureNoBreak | analyze_caleb_dialogues.py:56 | A capture from a single line is a single line. |
| Extraction.FromDirectoryAppend | analyze_caleb_dialogues.py:30-63 | The utterances of two stretches of a listing are those of each, in order. |
| Extraction.SkippedEntry | analyze_caleb_dialogues.py:31-63 | A non-`.txt` or unreadable file adds nothing and leaves every other file's utterances unchanged. |
| Extraction.FromDirectorySources | analyze_caleb_dialogues.py:30-59 | Every utterance comes from a line of some readable `.txt` file of the listing. |
| Extraction.LinesFromDirectory | analyze_caleb_dialogues.py:38-59 | If every accepted line's utterance is a stripped non-empty single line, so is every utterance of the directory. |
| Extraction.KeptFromDirectory | analyze_caleb_dialogues.py:55-59 | A property of every accepted utterance holds for the whole directory's output. |
| Extraction.CollectSubseq | process_caleb_data.py:45-51 | An extractor that agrees with another on every line it accepts yields an in-order selection of the other's utterances for a file. |
| Extraction.FromDirectorySubseq | process_caleb_data.py:30-55 | The same holds for a whole directory. |
| Extraction.WrittenOutputLoadsBack | analyze_caleb_dialogues.py:66-68 | The output file, loaded by the `.txt` loader, gives back exactly the extracted utterances in order. |
| StrictExtractor.Utterance | analyze_caleb_dialogues.py:38-59 | A line yields something only if its stripped form starts with one of the three spellings and a colon. The result is non-empty, stripped and not denied. Blank lines yield nothing. |
| StrictExtractor.UtteranceIsLine | analyze_caleb_dialogues.py:56 | An utterance of a single line is a single stripped non-empty line. |
| StrictExtractor.SpeakerLine | analyze_caleb_dialogues.py:43-56 | `Name`, a colon, any whitespace and a stripped text `u` yield `u` exactly when `u` passes the denylist. This holds for each accepted spelling and either colon. |
| StrictExtractor.OtherSpellingRefused | analyze_caleb_dialogues.py:43-53 | Any other five-letter start yields nothing. |
| StrictExtractor.ExtractDialogues | analyze_caleb_dialogues.py:16-72 | The function returns the directory's utterances in order and their count. Every utterance is a single stripped line that passed the denylist. |
| StrictExtractor.Checked | analyze_caleb_dialogues.py:55-59 | Every utterance of a directory is a single stripped line that passed the denylist. |
| AnyCaseExtractor.Utterance | process_caleb_data.py:40-51 | A line yields something only if its stripped form starts with `caleb` in any case and a colon. The result is non-empty, stripped and not denied. |
| AnyCaseExtractor.UtteranceIsLine | process_caleb_data.py:48 | An utterance of a single line is a single stripped non-empty line. |
| AnyCaseExtractor.SpeakerLine | process_caleb_data.py:45-48 | Any capitalisation of the name, a colon, whitespace and `u` yield `u` exactly when `u` passes the denylist. |
| AnyCaseExtractor.StrictSpeakerSpeaks | process_caleb_data.py:45 | Each of the three exact spellings also matches case-insensitively. |
| AnyCaseExtractor.StrictIncluded | process_caleb_data.py:45-51 | Whatever the strict extractor takes from a line, this one takes too, unchanged. |
| AnyCaseExtractor.DisagreeOnMixedCase | process_caleb_data.py:45 | The two extractors differ on a line exactly when this one accepts it and the strict one's name test fails. |
| AnyCaseExtractor.MixedIsOtherSpelling | analyze_caleb_dialogues.py:43-47 | `CaLeb` lowers to `caleb` but is none of the three exact spellings. |
| AnyCaseExtractor.MixedCaseLine | process_caleb_data.py:45 | `CaLeb:` followed by an allowed text `u` yields `u` here and nothing in the strict extractor. |
| AnyCaseExtractor.StrictRefusesMixed | analyze_caleb_dialogues.py:43-53 | The strict extractor refuses a stripped line starting with `CaLeb`. |
| AnyCaseExtractor.StrictIsSubsequence | process_caleb_data.py:30-55 | Over a directory, the strict extractor's output is an in-order selection of this one's. |
| AnyCaseExtractor.ExtractDialogues | process_caleb_data.py:30-55 | The loop collects exactly the directory's utterances in order and counts them. Every utterance is a single stripped line that passed the denylist. |
| PrefixExtractor.SpeaksShape | extract_caleb.py:19 | The two `startswith` tests accept exactly `Caleb` followed by either colon. |
| PrefixExtractor.Cut | extract_caleb.py:21-24 | With a full-width colon anywhere in the line, the cut follows its first occurrence. Otherwise the cut follows the first ASCII colon, which then exists. |
| PrefixExtractor.Utterance | extract_caleb.py:18-27 | A line yields something only if it starts with `Caleb` and a colon. The result is non-empty, stripped and free of `jpg`. |
| PrefixExtractor.SpeakerLine | extract_caleb.py:18-27 | `Caleb`, either colon, whitespace and a stripped text `u`, split at the name's own colon, yield `u` exactly when `u` holds no lower-case `jpg`. `JPG`, `png` and `图片` pass. |
| PrefixExtractor.LaterFullColon | extract_caleb.py:21-27 | In `Caleb:` + `a` + `：` + whitespace + `u` with no `：` in `a`, the split moves to that `：`, and the line yields `u` exactly when `u` holds no lower-case `jpg`. |
| PrefixExtractor.UtteranceIsLine | extract_caleb.py:22-24 | An utterance of a single line is a single stripped non-empty line. |
| PrefixExtractor.SpeakerIsStrictSpeaker | extract_caleb.py:19 | Every line this extractor considers, the strict one considers too. |
| PrefixExtractor.SameCut | extract_caleb.py:21-24 | Without a full-width colon after position 5, the cut is right after the name's colon, as in the strict extractor. |
| PrefixExtractor.DeniedCoversJpg | extract_caleb.py:26 | A text containing `jpg` is also refused by the strict denylist. |
| PrefixExtractor.AgreesWithStrict | extract_caleb.py:18-27 | On a `Caleb` line with no later full-width colon, this extractor keeps exactly what the strict one keeps. |
| PrefixExtractor.Extract | extract_caleb.py:10-32 | The run succeeds exactly when every `.txt` file is readable. It then yields every utterance in file-then-line order. |
| PrefixExtractor.ExtractChecked | extract_caleb.py:26-27 | Every written utterance is a single stripped line without `jpg`. |
| PrefixExtractor.TimeLineDiffers | extract_caleb.py:21-24 | `Caleb:时间：十点` yields `十点` here and `时间：十点` in the strict extractor. |
| PrefixExtractor.PictureLineKeptHere | extract_caleb.py:26 | `Caleb：图片` yields `图片`, because only `jpg` is denied here. |
| PrefixExtractor.PictureLineDroppedByStrict | analyze_caleb_dialogues.py:58 | The strict extractor drops `Caleb：图片`. |
| PrefixExtractor.OutputLoadsBack | extract_caleb.py:30-32 | The written file, loaded as text, gives back exactly the extracted utterances. |
| Report.TotalCharsIsConcat | character_dialogue_analyzer.py:416 | The summed lengths are the length of all dialogues run together. |
| Report.Stats | character_dialogue_analyzer.py:415-417 | The statistics count the dialogues and all their characters. The mean is characters over dialogues, and 0 without dialogues. |
| Report.AverageWithin | character_dialogue_analyzer.py:417 | The mean length lies between any lower and any upper bound on the dialogue lengths. |
| Report.Sample | character_dialogue_analyzer.py:426 | The sample is the first ten dialogues, or all of them when there are fewer. |
| Report.Distribution | character_dialogue_analyzer.py:426-432 | The distribution counts exactly the sampled dialogues. |
| Report.DistributionCounts | character_dialogue_analyzer.py:426-432 | Each label's count is the number of sampled dialogues that the analysis gives that label. |
| Report.DistributionTotal | character_dialogue_analyzer.py:426-432 | The positive, negative and neutral counts add up to the sample size. |
| Report.DistributionIgnoresRest | character_dialogue_analyzer.py:426 | Dialogues after the tenth never change the distribution. |
| Report.KeywordsIgnoreDeletedCharacters | character_dialogue_analyzer.py:169-186 | Two corpora whose dialogues preprocess alike, one by one, get the same keywords. |
| Report.RunAnalysis | character_dialogue_analyzer.py:403-476 | The run fails exactly without dialogues. Otherwise the results hold the statistics of all dialogues, per label the number of the first ten dialogues given that label, the trait report, and the keywords of the joined preprocessed corpus. |
| Report.RunAverageWithin | character_dialogue_analyzer.py:415-417 | The mean length in the results lies between any lower and any upper bound on the dialogue lengths. |

## Left out

- `jieba.cut` and `jieba.analyse.extract_tags` are a foreign library. They are parameters `cut` and `tfidf`. The keyword step is modelled as its empty-corpus guard and the text it hands to `tfidf`.
- WordCloud and matplotlib rendering, `generate_wordcloud` and the image half of `generate_sentiment_wordclouds` produce images only. The word pools they are drawn from are modelled.
- `pd.read_csv` and `json.load` are parsing libraries. They are parameters returning an already-parsed value or `None`.
- `str()` of non-string JSON values (numbers, `None`, nested objects) depends on Python's printing and is the parameter `render`.
- The analysis takes the loaded dialogues as strings. CSV cells or JSON record fields that are not strings would make `len(d)` or the regular expressions fail in the source; that path is not modelled.
- `Traits.AnalyzeTraits` keeps exact percentages, without `round(x * 100, 2)`, because that is a floating-point step. The source builds the summary from the rounded scores, while the model builds it from the exact ones. So the summary can differ for a score within 0.005 of the 1.0 or 1.5 thresholds: 1.004 gets a remark here but rounds to 1.0 and gets none in the source. `Traits.Summary` takes the score record as a parameter, so its lemmas hold for rounded scores too.
- `Traits.AnalyzeTraits` keeps the whole token counter rather than `most_common(20)`, because the order among equal counts comes from Python's `Counter` internals.
- File-system plumbing is not modelled: `os.listdir` order (a directory is a given sequence), `os.path.exists`, output directory creation, the timestamped JSON dump and its `datetime`. So is writing `ANALYSIS_INSTRUCTIONS.md` in extract_caleb.py, which is a fixed text.
- Console output, the `main` functions, caleb_analysis_solution.py (a guide writer) and simple_test.py (a dependency probe) are not modelled.
- Float formatting of the mean (`:.2f`) is not modelled. The mean is an exact quotient.
- A file that cannot be decoded as UTF-8 is treated like an unreadable file: its content is `None`.
- Loader.TextDialogues: its own contract only bounds the count. The content is stated by `Loader.TextDialoguesOfLines`, `Loader.TextDialoguesAppend` and `Loader.TextDialoguesAreLines`.
- Extraction.Collect: its own contract only bounds the count. Order and origin are stated by `Extraction.CollectAppend` and `Extraction.CollectSources`.
- Extraction.FromEntry: its own contract states only the skipped cases. A readable `.txt` file contributes its `Collect`, as `Extraction.FromDirectorySources` states.
- Sentiment.AnalyzeText: its own contract states only the token bound and the stopword-free positive words. The score and label are those of `Sentiment.Analyze` on the segmented text.
- Sentiment.Pools: its own contract states only that the neutral pool avoids both lexicons. The full neutral pool is stated by `Sentiment.PoolsNeutral`, and the positive and negative pools by `Sentiment.PoolsCount`.
- Traits.Summary: its own contract states only the final newline. Its lines and their order are stated by `Traits.SummaryOrder`, `Traits.SummaryHeader`, `Traits.OpeningPrimary` and `Traits.OpeningBalanced`.
- Report.Distribution: its own contract states only the size. The per-label counts are stated by `Report.DistributionCounts`.
- Loader.Extension follows POSIX `splitext`. On Windows paths with backslashes (`dir\.txt`) Python's `ntpath` gives a different answer, and that is not modelled.
- PrefixExtractor.SpeakerLine and PrefixExtractor.LaterFullColon describe lines with a non-whitespace text after the colon. A bare `Caleb:` falls outside them. Such a line yields nothing, because its stripped rest is empty.
- Sentiment.Verdict decides the label on the exact fraction. The source compares a rounded float quotient with the double nearest 0.1, and that rounding is not modelled. The two agree unless the token count is in the order of 10^15, far beyond any dialogue corpus.
- StrictExtractor.Utterance and AnyCaseExtractor.Utterance take the stripped rest of the line. The regular expression's `.` would stop at a line break, but no line read from a file holds one, so the two agree on every line the extractors see.
