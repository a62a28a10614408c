/** `extract_caleb_dialogues` (analyze_caleb_dialogues.py): the speaker must be
    spelled exactly `Caleb`, `caleb` or `CALEB`, followed by either colon. */
module StrictExtractor {
  import opened Text
  import opened Results
  import opened Loader
  import opened Extraction

  const Caleb: string := "Caleb"
  const CalebLower: string := "caleb"
  const CalebUpper: string := "CALEB"

  /** One of `^Caleb[：:]`, `^caleb[：:]`, `^CALEB[：:]` matches the line. */
  predicate Speaks(line: string) {
    |line| >= 6 && (line[..5] == Caleb || line[..5] == CalebLower || line[..5] == CalebUpper) && IsColon(line[5])
  }

  /** The utterance of one line: the line is stripped and matched, and the
      group `\s*(.+)` captures the rest after the colon and its leading
      whitespace; stripped again and denylisted, it is the utterance. A
      stripped line ends in a non-space, so the stripped capture is the
      stripped rest, and an empty rest (no match) yields nothing either way.
      The regular expression's `.` stops at a line break, so this equals the
      capture only on lines without one; every line the extractor reads is
      such a line (`Text.ReadLines`). */
  function Utterance(raw: string): (r: Option<string>)
    ensures r.Some? ==> Speaks(Strip(raw)) && r.value != [] && !Denied(r.value)
    ensures r.Some? ==> IsStripped(r.value)
    ensures Strip(raw) == [] ==> r.None?
  {
    var line := Strip(raw);
    if Speaks(line) then Accept(Strip(line[6..])) else None
  }

  /** An utterance of a single-line text is a single line. */
  lemma UtteranceIsLine(raw: string)
    requires NoBreak(raw) && Utterance(raw).Some?
    ensures IsLine(Utterance(raw).value)
  {
    assert |Strip(raw)| >= 6;
    CaptureNoBreak(raw, 6);
  }

  lemma UtterancesAreLines()
    ensures forall l :: NoBreak(l) && Utterance(l).Some? ==> IsLine(Utterance(l).value)
  {
    forall l | NoBreak(l) && Utterance(l).Some? ensures IsLine(Utterance(l).value) {
      UtteranceIsLine(l);
    }
  }

  /** Writing a speaker line and extracting it gives back what was said: for
      each accepted spelling, either colon and any whitespace after it. As
      for `Utterance`, this is the regular expression's capture when `u`
      holds no line break, as every line read from a file does. */
  lemma SpeakerLine(name: string, colon: char, ws: string, u: string)
    requires name == Caleb || name == CalebLower || name == CalebUpper
    requires IsColon(colon) && AllSpace(ws)
    requires u != [] && IsStripped(u)
    ensures Utterance(name + [colon] + ws + u) == Accept(u)
  {
    var line := name + [colon] + ws + u;
    SpeakerLineShape(name, colon, ws, u);
    StripAfterSpaces(ws, u);
    RestIs(line, u);
  }

  lemma SpeakerLineShape(name: string, colon: char, ws: string, u: string)
    requires name == Caleb || name == CalebLower || name == CalebUpper
    requires IsColon(colon) && u != [] && IsStripped(u)
    ensures var line := name + [colon] + ws + u;
      Strip(line) == line && Speaks(line) && line[6..] == ws + u
  {
    var line := name + [colon] + ws + u;
    assert line[0] == name[0] && line[|line| - 1] == u[|u| - 1];
    StripOfStripped(line);
    assert line == (name + [colon]) + (ws + u);
    assert |name + [colon]| == 6;
    assert line[..5] == name && line[5] == colon;
  }

  /** A stripped speaker line whose stripped rest is `u`. */
  lemma RestIs(line: string, u: string)
    requires Strip(line) == line && Speaks(line) && Strip(line[6..]) == u
    ensures Utterance(line) == Accept(u)
  {
  }

  /** Any other spelling of the name is refused, whatever follows it. */
  lemma OtherSpellingRefused(raw: string)
    requires |Strip(raw)| >= 5
    requires Strip(raw)[..5] != Caleb && Strip(raw)[..5] != CalebLower && Strip(raw)[..5] != CalebUpper
    ensures Utterance(raw) == None
  {
  }

  /** `extract_caleb_dialogues(input_folder, output_file)`: the utterances of
      every readable `.txt` file in listing order, and their number. */
  method ExtractDialogues(dir: seq<Entry>) returns (us: seq<string>, n: nat)
    ensures us == FromDirectory(Utterance, dir)
    ensures n == |us|
    ensures forall u :: u in us ==> IsLine(u) && !Denied(u)
  {
    us, n := ExtractAll(Utterance, dir);
    Checked(dir);
  }

  /** Every utterance of a directory is a single stripped line that passed the
      denylist. */
  lemma Checked(dir: seq<Entry>)
    ensures forall u :: u in FromDirectory(Utterance, dir) ==> IsLine(u) && !Denied(u)
  {
    UtterancesAreLines();
    LinesFromDirectory(Utterance, dir);
    KeptFromDirectory(Utterance, u => !Denied(u), dir);
  }
}
