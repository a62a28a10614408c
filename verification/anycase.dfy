/** The extraction loop of process_caleb_data.py: the same line rule as the
    strict extractor, but `^Caleb[：:]` is matched with `re.IGNORECASE`. For
    the letters of `caleb` that is plain ASCII case-insensitivity: no other
    character folds to any of them. */
module AnyCaseExtractor {
  import opened Text
  import opened Seqs
  import opened Results
  import opened Loader
  import opened Extraction
  import Strict = StrictExtractor

  /** `^Caleb[：:]` matches the line, ignoring case. */
  predicate Speaks(line: string) {
    |line| >= 6 && Lower(line[..5]) == Strict.CalebLower && IsColon(line[5])
  }

  /** The utterance of one line, exactly as in the strict extractor apart
      from the name test. */
  function Utterance(raw: string): (r: Option<string>)
    ensures r.Some? ==> |Strip(raw)| >= 6 && Lower(Strip(raw)[..5]) == Strict.CalebLower && IsColon(Strip(raw)[5])
    ensures r.Some? ==> r.value != [] && !Denied(r.value)
    ensures r.Some? ==> IsStripped(r.value)
    ensures Strip(raw) == [] ==> r.None?
  {
    var line := Strip(raw);
    if Speaks(line) then Accept(Strip(line[6..])) else None
  }

  lemma UtteranceIsLine(raw: string)
    requires NoBreak(raw) && Utterance(raw).Some?
    ensures IsLine(Utterance(raw).value)
  {
    assert |Strip(raw)| >= 6;
    CaptureNoBreak(raw, 6);
  }

  lemma UtterancesAreLines()
    ensures forall l :: NoBreak(l) && Utterance(l).Some? ==> IsLine(Utterance(l).value)
  {
    forall l | NoBreak(l) && Utterance(l).Some? ensures IsLine(Utterance(l).value) {
      UtteranceIsLine(l);
    }
  }

  /** Writing a speaker line under any capitalisation of the name and
      extracting it gives back what was said (the capture itself when `u`
      holds no line break, as every line read from a file does). */
  lemma SpeakerLine(name: string, colon: char, ws: string, u: string)
    requires |name| == 5 && Lower(name) == Strict.CalebLower
    requires IsColon(colon) && AllSpace(ws)
    requires u != [] && IsStripped(u)
    ensures Utterance(name + [colon] + ws + u) == Accept(u)
  {
    var line := name + [colon] + ws + u;
    assert LowerChar(name[0]) == 'c';
    assert line[0] == name[0] && line[|line| - 1] == u[|u| - 1];
    StripOfStripped(line);
    assert line == (name + [colon]) + (ws + u);
    assert line[..5] == name && line[5] == colon;
    assert line[6..] == ws + u;
    assert Speaks(line);
    StripAfterSpaces(ws, u);
  }

  lemma LowerCaleb()
    ensures Lower(Strict.Caleb) == Strict.CalebLower
  {
  }

  lemma LowerCalebLower()
    ensures Lower(Strict.CalebLower) == Strict.CalebLower
  {
  }

  lemma LowerCalebUpper()
    ensures Lower(Strict.CalebUpper) == Strict.CalebLower
  {
  }

  /** Each of the three exact spellings is also a case-insensitive match. */
  lemma StrictSpeakerSpeaks(line: string)
    requires Strict.Speaks(line)
    ensures Speaks(line)
  {
    LowerCaleb();
    LowerCalebLower();
    LowerCalebUpper();
  }

  /** Whatever the strict extractor takes from a line, this one takes too,
      unchanged. */
  lemma StrictIncluded(raw: string)
    requires Strict.Utterance(raw).Some?
    ensures Utterance(raw) == Strict.Utterance(raw)
  {
    StrictSpeakerSpeaks(Strip(raw));
  }

  /** The two extractors disagree on a line exactly when this one takes it
      and its name is none of the three exact spellings: a mixed-case name
      such as `CaLeb`. */
  lemma DisagreeOnMixedCase(raw: string)
    ensures Utterance(raw) != Strict.Utterance(raw) <==> Utterance(raw).Some? && !Strict.Speaks(Strip(raw))
  {
    if Strict.Speaks(Strip(raw)) {
      StrictSpeakerSpeaks(Strip(raw));
    }
  }

  /** A mixed-case name the strict extractor refuses and this one accepts. */
  const Mixed: string := "CaLeb"

  lemma MixedIsOtherSpelling()
    ensures Lower(Mixed) == Strict.CalebLower
    ensures Mixed != Strict.Caleb && Mixed != Strict.CalebLower && Mixed != Strict.CalebUpper
  {
    assert Mixed[2] != Strict.Caleb[2];
    assert Mixed[0] != Strict.CalebLower[0];
    assert Mixed[1] != Strict.CalebUpper[1];
  }

  /** `CaLeb: u` yields `u` here and nothing in the strict extractor. */
  lemma MixedCaseLine(colon: char, ws: string, u: string)
    requires IsColon(colon) && AllSpace(ws)
    requires u != [] && IsStripped(u) && !Denied(u)
    ensures Utterance(Mixed + [colon] + ws + u) == Some(u)
    ensures Strict.Utterance(Mixed + [colon] + ws + u) == None
  {
    MixedTaken(colon, ws, u);
    MixedRefused(colon, ws, u);
  }

  lemma MixedTaken(colon: char, ws: string, u: string)
    requires IsColon(colon) && AllSpace(ws)
    requires u != [] && IsStripped(u) && !Denied(u)
    ensures Utterance(Mixed + [colon] + ws + u) == Some(u)
  {
    MixedIsOtherSpelling();
    SpeakerLine(Mixed, colon, ws, u);
  }

  lemma MixedRefused(colon: char, ws: string, u: string)
    requires u != [] && IsStripped(u)
    ensures Strict.Utterance(Mixed + [colon] + ws + u) == None
  {
    var line := Mixed + [colon] + ws + u;
    assert line == Mixed + ([colon] + ws + u);
    assert line[..5] == Mixed;
    assert line[0] == 'C' && line[|line| - 1] == u[|u| - 1];
    StrictRefusesMixed(line);
  }

  lemma StrictRefusesMixed(line: string)
    requires |line| >= 6 && line[..5] == Mixed && IsStripped(line)
    ensures Strict.Utterance(line) == None
  {
    MixedIsOtherSpelling();
    StripOfStripped(line);
    Strict.OtherSpellingRefused(line);
  }

  /** At directory level the strict extractor's output is an in-order
      selection of this one's. */
  lemma StrictIsSubsequence(dir: seq<Entry>)
    ensures IsSubseq(FromDirectory(Strict.Utterance, dir), FromDirectory(Utterance, dir))
  {
    forall l | Strict.Utterance(l).Some? ensures Utterance(l) == Strict.Utterance(l) {
      StrictIncluded(l);
    }
    FromDirectorySubseq(Strict.Utterance, Utterance, dir);
  }

  /** The module-level loop: the utterances of every readable `.txt` file in
      listing order, and their number. */
  method ExtractDialogues(dir: seq<Entry>) returns (us: seq<string>, n: nat)
    ensures us == FromDirectory(Utterance, dir)
    ensures n == |us|
    ensures forall u :: u in us ==> IsLine(u) && !Denied(u)
  {
    us, n := ExtractAll(Utterance, dir);
    UtterancesAreLines();
    LinesFromDirectory(Utterance, dir);
    KeptFromDirectory(Utterance, u => !Denied(u), dir);
  }
}
