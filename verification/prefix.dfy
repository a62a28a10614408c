/** The extraction loop of extract_caleb.py: a case-sensitive `startswith`
    test, a split at the first full-width colon when the line has one
    anywhere (otherwise at the first ASCII colon), and a denylist of `jpg`
    alone, compared case-sensitively. Any read error ends the whole run. */
module PrefixExtractor {
  import opened Text
  import opened Seqs
  import opened Results
  import opened Loader
  import opened Extraction
  import Strict = StrictExtractor

  const FullPrefix: string := "Caleb："
  const HalfPrefix: string := "Caleb:"

  /** `line.startswith('Caleb：') or line.startswith('Caleb:')`. */
  predicate Speaks(line: string) {
    StartsWith(line, FullPrefix) || StartsWith(line, HalfPrefix)
  }

  /** The two prefixes are the name `Caleb` followed by either colon. */
  lemma SpeaksShape(line: string)
    ensures Speaks(line) <==> |line| >= 6 && line[..5] == Strict.Caleb && IsColon(line[5])
  {
    if |line| >= 6 {
      assert line[..5] == line[..6][..5];
      assert FullPrefix[..5] == Strict.Caleb && FullPrefix[5] == '：';
      assert HalfPrefix[..5] == Strict.Caleb && HalfPrefix[5] == ':';
      if line[..5] == Strict.Caleb && IsColon(line[5]) {
        assert line[..6] == line[..5] + [line[5]];
        assert FullPrefix == FullPrefix[..5] + [FullPrefix[5]];
        assert HalfPrefix == HalfPrefix[..5] + [HalfPrefix[5]];
      }
    }
  }

  /** Where the split cuts: after the first `：` if there is one, else after
      the first `:`. */
  function Cut(line: string): (k: nat)
    requires Speaks(line)
    ensures 0 < k <= |line|
    ensures '：' in line ==> line[k - 1] == '：' && '：' !in line[..k - 1]
    ensures '：' !in line ==> line[k - 1] == ':' && ':' !in line[..k - 1]
  {
    SpeaksShape(line);
    if '：' in line then IndexOf(line, '：') + 1
    else
      assert line[5] in line;
      IndexOf(line, ':') + 1
  }

  /** The utterance of one line: `split(..., 1)[1].strip()`, kept when it is
      non-empty and does not contain `jpg`. */
  function Utterance(raw: string): (r: Option<string>)
    ensures r.Some? ==> Speaks(Strip(raw))
    ensures r.Some? ==> r.value != [] && IsStripped(r.value)
    ensures r.Some? ==> !Contains(r.value, Jpg)
  {
    var line := Strip(raw);
    if Speaks(line) then
      var content := Strip(line[Cut(line)..]);
      if content != [] && !Contains(content, Jpg) then Some(content) else None
    else None
  }

  lemma UtteranceIsLine(raw: string)
    requires NoBreak(raw) && Utterance(raw).Some?
    ensures IsLine(Utterance(raw).value)
  {
    CaptureNoBreak(raw, Cut(Strip(raw)));
  }

  lemma UtterancesAreLines()
    ensures forall l :: NoBreak(l) && Utterance(l).Some? ==> IsLine(Utterance(l).value)
  {
    forall l | NoBreak(l) && Utterance(l).Some? ensures IsLine(Utterance(l).value) {
      UtteranceIsLine(l);
    }
  }

  /** What is kept of a captured text: anything non-empty without a
      lower-case `jpg`; `JPG`, `png` and `图片` all pass. */
  function KeepJpgFree(u: string): Option<string> {
    if u != [] && !Contains(u, Jpg) then Some(u) else None
  }

  /** `Caleb`, either colon, whitespace and a stripped text `u`: when the
      split happens at the name's own colon (the colon is `：`, or `u` holds
      no `：`), the line yields `u` unless it contains `jpg`. */
  lemma SpeakerLine(c: char, ws: string, u: string)
    requires IsColon(c) && AllSpace(ws)
    requires u != [] && IsStripped(u)
    requires c == '：' || '：' !in u
    ensures Utterance(Strict.Caleb + [c] + ws + u) == KeepJpgFree(u)
  {
    var line := Strict.Caleb + [c] + ws + u;
    SpeakerLineShape(c, ws, u);
    SpeakerLineCut(c, ws, u);
    StripAfterSpaces(ws, u);
    CutLine(line, 6, u);
  }

  /** A stripped speaker line cut at `k` whose stripped rest is `u`. */
  lemma CutLine(line: string, k: nat, u: string)
    requires Strip(line) == line && Speaks(line) && Cut(line) == k
    requires Strip(line[k..]) == u
    ensures Utterance(line) == KeepJpgFree(u)
  {
  }

  lemma SpeakerLineShape(c: char, ws: string, u: string)
    requires IsColon(c) && u != [] && IsStripped(u)
    ensures var line := Strict.Caleb + [c] + ws + u;
      Strip(line) == line && Speaks(line) && line[6..] == ws + u
  {
    var line := Strict.Caleb + [c] + ws + u;
    assert line == (Strict.Caleb + [c]) + (ws + u);
    assert line[0] == 'C' && line[|line| - 1] == u[|u| - 1];
    StripOfStripped(line);
    assert line[..5] == Strict.Caleb && line[5] == c;
    SpeaksShape(line);
  }

  lemma SpeakerLineCut(c: char, ws: string, u: string)
    requires IsColon(c) && AllSpace(ws) && u != [] && IsStripped(u)
    requires c == '：' || '：' !in u
    ensures var line := Strict.Caleb + [c] + ws + u; Speaks(line) && Cut(line) == 6
  {
    var line := Strict.Caleb + [c] + ws + u;
    SpeakerLineShape(c, ws, u);
    if c == '：' {
      assert line[..5] == Strict.Caleb;
      assert '：' !in Strict.Caleb;
      FirstIndex(line, '：', 5, Cut(line) - 1);
    } else {
      assert '：' !in ws by {
        forall i | 0 <= i < |ws| ensures ws[i] != '：' {
          assert IsSpace(ws[i]);
        }
      }
      SameCut(line);
    }
  }

  /** `Caleb:`, then a text `a` without `：`, then `：`, whitespace and a
      stripped text `u`: the split moves to that later `：`, and the line
      yields `u` unless it contains `jpg`. */
  lemma LaterFullColon(a: string, ws: string, u: string)
    requires '：' !in a && AllSpace(ws)
    requires u != [] && IsStripped(u)
    ensures Utterance(HalfPrefix + a + "：" + ws + u) == KeepJpgFree(u)
  {
    var line := HalfPrefix + a + "：" + ws + u;
    LaterFullColonShape(a, ws, u);
    LaterFullColonCut(a, ws, u);
    StripAfterSpaces(ws, u);
    CutLine(line, |a| + 7, u);
  }

  lemma LaterFullColonShape(a: string, ws: string, u: string)
    requires u != [] && IsStripped(u)
    ensures var line := HalfPrefix + a + "：" + ws + u;
      Strip(line) == line && Speaks(line) && line[|a| + 7..] == ws + u
  {
    var line := HalfPrefix + a + "：" + ws + u;
    assert line == (HalfPrefix + a + "：") + (ws + u);
    assert line[0] == 'C' && line[|line| - 1] == u[|u| - 1];
    StripOfStripped(line);
    assert line[..6] == HalfPrefix;
  }

  lemma LaterFullColonCut(a: string, ws: string, u: string)
    requires '：' !in a && u != [] && IsStripped(u)
    ensures var line := HalfPrefix + a + "：" + ws + u; Speaks(line) && Cut(line) == |a| + 7
  {
    var line := HalfPrefix + a + "：" + ws + u;
    var j := |a| + 6;
    LaterFullColonShape(a, ws, u);
    assert line[..j] == HalfPrefix + a;
    assert line[j] == '：';
    assert '：' !in HalfPrefix;
    assert '：' !in line[..j];
    FirstIndex(line, '：', j, Cut(line) - 1);
  }

  /** Every line this extractor considers, the strict one considers too. */
  lemma SpeakerIsStrictSpeaker(line: string)
    requires Speaks(line)
    ensures Strict.Speaks(line)
  {
    SpeaksShape(line);
  }

  /** Without a full-width colon after the name's own colon, both split at
      that colon, so they capture the same text. */
  lemma SameCut(line: string)
    requires Speaks(line) && '：' !in line[6..]
    ensures Cut(line) == 6
  {
    SpeaksShape(line);
    var k := Cut(line);
    assert ':' !in Strict.Caleb && '：' !in Strict.Caleb;
    assert forall i | 0 <= i < 5 :: line[i] == line[..5][i];
    assert forall i | 6 <= i < |line| :: line[i] == line[6..][i - 6];
    if '：' in line {
      assert line[5] == '：';
    } else {
      assert line[5] == ':';
    }
    FirstIndex(line, line[5], 5, k - 1);
  }

  /** The first occurrence of a character is unique. */
  lemma FirstIndex(s: string, c: char, j: nat, k: nat)
    requires j < |s| && s[j] == c && c !in s[..j]
    requires k < |s| && s[k] == c && c !in s[..k]
    ensures j == k
  {
    assert forall i | 0 <= i < k :: s[..k][i] == s[i];
    assert forall i | 0 <= i < j :: s[..j][i] == s[i];
  }

  lemma LowerJpg()
    ensures Lower(Jpg) == Jpg
  {
  }

  /** The strict denylist is the stronger one: lowering never hides a `jpg`. */
  lemma DeniedCoversJpg(d: string)
    requires Contains(d, Jpg)
    ensures Denied(d)
  {
    LowerContains(d, Jpg);
    LowerJpg();
  }

  /** On a line whose only full-width colon, if any, directly follows
      `Caleb`, this extractor keeps whatever the strict one keeps. */
  lemma AgreesWithStrict(raw: string)
    requires Speaks(Strip(raw)) && '：' !in Strip(raw)[6..]
    requires Strict.Utterance(raw).Some?
    ensures Utterance(raw) == Strict.Utterance(raw)
  {
    var line := Strip(raw);
    SameCut(line);
    var d := Strip(line[6..]);
    if Contains(d, Jpg) {
      DeniedCoversJpg(d);
    }
  }

  /** Every `.txt` entry of the listing could be read. */
  predicate Readable(dir: seq<Entry>) {
    forall i :: 0 <= i < |dir| && IsTextFile(dir[i].name) ==> dir[i].content.Some?
  }

  lemma ReadableCons(dir: seq<Entry>)
    requires dir != []
    ensures Readable(dir) <==> (IsTextFile(dir[0].name) ==> dir[0].content.Some?) && Readable(dir[1..])
  {
    assert forall i | 1 <= i < |dir| :: dir[i] == dir[1..][i - 1];
  }

  /** `extract_caleb.py` as a whole: `None` when some `.txt` file cannot be
      read (the run stops and writes nothing); otherwise every utterance of
      every `.txt` file in listing order. */
  function Extract(dir: seq<Entry>): (r: Option<seq<string>>)
    ensures r.Some? <==> Readable(dir)
    ensures r.Some? ==> r.value == FromDirectory(Utterance, dir)
  {
    if dir == [] then Some([])
    else
      ReadableCons(dir);
      if IsTextFile(dir[0].name) && dir[0].content.None? then None
      else
        match Extract(dir[1..])
        case None => None
        case Some(rest) => Some(FromEntry(Utterance, dir[0]) + rest)
  }

  /** Every utterance written is a single stripped line without `jpg`. */
  lemma ExtractChecked(dir: seq<Entry>)
    requires Extract(dir).Some?
    ensures forall u :: u in Extract(dir).value ==> IsLine(u) && !Contains(u, Jpg)
  {
    UtterancesAreLines();
    LinesFromDirectory(Utterance, dir);
    KeptFromDirectory(Utterance, u => !Contains(u, Jpg), dir);
  }

  /** The line `Caleb:时间：十点`: this extractor cuts at the full-width colon,
      the strict one at the first colon. */
  const TimeLine: string := "Caleb:时间：十点"
  const TimeRest: string := "时间：十点"
  const TimeTail: string := "十点"

  lemma TimeLineSpeaks()
    ensures Speaks(TimeLine)
  {
    assert TimeLine[..6] == HalfPrefix;
  }

  lemma TimeLineFirstColon()
    ensures TimeLine[8] == '：' && '：' !in TimeLine[..8]
  {
    assert TimeLine[..8] == "Caleb:时间";
  }

  lemma TimeLineCut()
    ensures Speaks(TimeLine) && Cut(TimeLine) == 9
  {
    TimeLineSpeaks();
    TimeLineFirstColon();
    FirstIndex(TimeLine, '：', 8, Cut(TimeLine) - 1);
  }

  lemma TimeLineTail()
    ensures TimeLine[9..] == TimeTail
  {
  }

  lemma TimeLineStripped()
    ensures Strip(TimeLine) == TimeLine
  {
    assert TimeLine[0] == 'C' && TimeLine[|TimeLine| - 1] == '点';
    StripOfStripped(TimeLine);
  }

  lemma TimeTailStripped()
    ensures Strip(TimeTail) == TimeTail
  {
    StripOfStripped(TimeTail);
  }

  lemma TimeTailNoJpg()
    ensures !Contains(TimeTail, Jpg)
  {
    assert Jpg[0] == 'j';
    MissingChar(TimeTail, Jpg, 'j');
  }

  lemma TimeLineHere()
    ensures Utterance(TimeLine) == Some(TimeTail)
  {
    TimeLineStripped();
    TimeLineCut();
    TimeLineTail();
    TimeTailStripped();
    TimeTailNoJpg();
  }

  lemma TimeLineStrict()
    ensures Strict.Utterance(TimeLine) == Some(TimeRest)
  {
    TimeLineStripped();
    TimeLineStrictSpeaks();
    TimeLineRest();
    TimeRestStripped();
    TimeRestAllowed();
  }

  lemma TimeLineStrictSpeaks()
    ensures Strict.Speaks(TimeLine)
  {
    assert TimeLine[..5] == Strict.Caleb && TimeLine[5] == ':';
  }

  lemma TimeLineRest()
    ensures TimeLine[6..] == TimeRest
  {
  }

  lemma TimeRestStripped()
    ensures Strip(TimeRest) == TimeRest
  {
    StripOfStripped(TimeRest);
  }

  lemma TimeRestAllowed()
    ensures !Denied(TimeRest)
  {
    NoPictureWords(TimeRest);
  }

  /** A text with no `p` in either case and no `图` is never denied. */
  lemma NoPictureWords(d: string)
    requires 'p' !in d && 'P' !in d && '图' !in d
    ensures !Denied(d)
  {
    var l := Lower(d);
    assert 'p' !in l && '图' !in l by {
      forall i | 0 <= i < |l| ensures l[i] != 'p' && l[i] != '图' {
        assert d[i] in d;
      }
    }
    assert Jpg[1] == 'p' && Png[0] == 'p' && Picture[0] == '图';
    MissingChar(l, Jpg, 'p');
    MissingChar(l, Png, 'p');
    MissingChar(l, Picture, '图');
  }

  lemma TimeLineDiffers()
    ensures Utterance(TimeLine) == Some(TimeTail)
    ensures Strict.Utterance(TimeLine) == Some(TimeRest)
  {
    TimeLineHere();
    TimeLineStrict();
  }

  /** The line `Caleb：图片`: only the strict denylist names `图片`. */
  const PictureLine: string := "Caleb：图片"

  lemma PictureNoJpg()
    ensures !Contains(Picture, Jpg)
  {
    assert Jpg[0] == 'j';
    MissingChar(Picture, Jpg, 'j');
  }

  lemma PictureDenied()
    ensures Denied(Picture)
  {
    assert Lower(Picture) == Picture;
    assert Picture[..|Picture|] == Picture;
  }

  lemma PictureLineKeptHere()
    ensures Utterance(PictureLine) == Some(Picture)
  {
    assert PictureLine == Strict.Caleb + ['：'] + [] + Picture;
    assert Picture[0] == '图' && Picture[1] == '片';
    SpeakerLine('：', [], Picture);
    PictureNoJpg();
  }

  lemma PictureLineDroppedByStrict()
    ensures Strict.Utterance(PictureLine) == None
  {
    assert PictureLine == Strict.Caleb + ['：'] + [] + Picture;
    assert Picture[0] == '图' && Picture[1] == '片';
    Strict.SpeakerLine(Strict.Caleb, '：', [], Picture);
    PictureDenied();
  }

  /** Read back by the loader's `.txt` branch, the written output file gives
      exactly the extracted utterances. */
  lemma OutputLoadsBack(dir: seq<Entry>, path: string,
                        parseCsv: string -> Option<Table>, parseJson: string -> Option<Json>,
                        render: Json -> string)
    requires Extract(dir).Some?
    requires Lower(Extension(path)) == ".txt"
    ensures Load(path, Some(WriteLines(Extract(dir).value)), parseCsv, parseJson, render)
            == Ok(AsJson(Extract(dir).value))
  {
    UtterancesAreLines();
    WrittenOutputLoadsBack(Utterance, dir, path, parseCsv, parseJson, render);
  }
}
