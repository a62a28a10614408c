/** What the three speaker-line extractors share: a directory given as its
    entries in listing order, the per-line extraction applied to every line
    of every readable `.txt` file, and the denylist for picture captions. */
module Extraction {
  import opened Text
  import opened Seqs
  import opened Results
  import opened Loader

  /** A directory entry: the file name, and the file's text, or `None` when
      opening or reading the file raises. */
  datatype Entry = Entry(name: string, content: Option<string>)

  /** `filename.endswith('.txt')`; unlike the loader, this is case-sensitive. */
  predicate IsTextFile(name: string) {
    EndsWith(name, ".txt")
  }

  /** The ASCII colon or the full-width colon U+FF1A. */
  predicate IsColon(c: char) {
    c == ':' || c == '：'
  }

  const Jpg: string := "jpg"
  const Png: string := "png"
  const Picture: string := "图片"

  /** `any(x in d.lower() for x in ['jpg', 'png', '图片'])`: the text names a
      picture rather than something said. */
  predicate Denied(d: string) {
    Contains(Lower(d), Jpg) || Contains(Lower(d), Png) || Contains(Lower(d), Picture)
  }

  /** A denied word, spelled in any mix of ASCII cases. */
  predicate DenyWord(t: string) {
    Lower(t) == Jpg || Lower(t) == Png || Lower(t) == Picture
  }

  /** `if dialogue and not any(...)`: a captured text is kept, unchanged,
      exactly when it is non-empty and holds no denied word in any case. */
  function Accept(d: string): (r: Option<string>)
    ensures r.Some? <==> d != [] && !Denied(d)
    ensures r.Some? ==> r.value == d
    ensures r.Some? ==> forall t :: Contains(d, t) ==> !DenyWord(t)
    ensures r.None? && d != [] ==> exists t :: Contains(d, t) && DenyWord(t)
  {
    if d != [] && !Denied(d) then
      NoDenyWord(d);
      Some(d)
    else
      if d != [] then
        SomeDenyWord(d);
        None
      else None
  }

  lemma NoDenyWord(d: string)
    requires !Denied(d)
    ensures forall t :: Contains(d, t) ==> !DenyWord(t)
  {
    forall t | Contains(d, t) ensures !DenyWord(t) {
      LowerContains(d, t);
    }
  }

  lemma SomeDenyWord(d: string)
    requires Denied(d)
    ensures exists t :: Contains(d, t) && DenyWord(t)
  {
    if Contains(Lower(d), Jpg) {
      UnlowerContains(d, Jpg);
    } else if Contains(Lower(d), Png) {
      UnlowerContains(d, Png);
    } else {
      UnlowerContains(d, Picture);
    }
  }

  /** The denylist test as written (`any` over the lowered text) is the
      same as asking for a denied word in any case. */
  lemma DeniedIff(d: string)
    ensures Denied(d) <==> exists t :: Contains(d, t) && DenyWord(t)
  {
    if Denied(d) {
      SomeDenyWord(d);
    } else {
      NoDenyWord(d);
    }
  }

  /** One line yields at most one utterance: the extraction of every line of a
      file, in line order. */
  function Collect(f: string -> Option<string>, lines: seq<string>): (r: seq<string>)
    ensures |r| <= |lines|
  {
    if lines == [] then []
    else
      var rest := Collect(f, lines[1..]);
      match f(lines[0])
      case None => rest
      case Some(u) => [u] + rest
  }

  /** The utterances of one entry: nothing unless it is a readable `.txt`
      file. */
  function FromEntry(f: string -> Option<string>, e: Entry): (r: seq<string>)
    ensures !IsTextFile(e.name) || e.content.None? ==> r == []
  {
    if IsTextFile(e.name) && e.content.Some? then Collect(f, ReadLines(e.content.value)) else []
  }

  /** All utterances of a directory, file after file in listing order; a file
      that cannot be read is skipped. */
  function FromDirectory(f: string -> Option<string>, dir: seq<Entry>): (r: seq<string>)
  {
    if dir == [] then [] else FromEntry(f, dir[0]) + FromDirectory(f, dir[1..])
  }

  /** The loop over the files of a listing, then over the lines of each
      file, appending each utterance as it is found; also returns how many
      there are. */
  method ExtractAll(f: string -> Option<string>, dir: seq<Entry>) returns (us: seq<string>, n: nat)
    ensures us == FromDirectory(f, dir)
    ensures n == |us|
  {
    us := [];
    var i := 0;
    while i < |dir|
      invariant 0 <= i <= |dir|
      invariant us == FromDirectory(f, dir[..i])
    {
      var e := dir[i];
      var found: seq<string> := [];
      if IsTextFile(e.name) && e.content.Some? {
        found := ExtractLines(f, ReadLines(e.content.value));
      }
      assert found == FromEntry(f, e);
      FromDirectorySnoc(f, dir[..i], e);
      assert dir[..i + 1] == dir[..i] + [e];
      us := us + found;
      i := i + 1;
    }
    assert dir[..i] == dir;
    n := |us|;
  }

  /** The loop over the lines of one file. */
  method ExtractLines(f: string -> Option<string>, lines: seq<string>) returns (found: seq<string>)
    ensures found == Collect(f, lines)
  {
    found := [];
    var j := 0;
    while j < |lines|
      invariant 0 <= j <= |lines|
      invariant found == Collect(f, lines[..j])
    {
      CollectAppend(f, lines[..j], [lines[j]]);
      assert lines[..j + 1] == lines[..j] + [lines[j]];
      match f(lines[j]) {
        case Some(u) => found := found + [u];
        case None =>
      }
      j := j + 1;
    }
    assert lines[..j] == lines;
  }

  lemma {:induction false} CollectAppend(f: string -> Option<string>, a: seq<string>, b: seq<string>)
    ensures Collect(f, a + b) == Collect(f, a) + Collect(f, b)
  {
    if a == [] {
      assert a + b == b;
    } else {
      assert (a + b)[0] == a[0] && (a + b)[1..] == a[1..] + b;
      CollectAppend(f, a[1..], b);
    }
  }

  /** Every utterance comes from some line of the file. */
  lemma {:induction false} CollectSources(f: string -> Option<string>, lines: seq<string>)
    ensures forall u :: u in Collect(f, lines) ==> exists k :: 0 <= k < |lines| && f(lines[k]) == Some(u)
  {
    if lines != [] {
      CollectSources(f, lines[1..]);
      forall u | u in Collect(f, lines)
        ensures exists k :: 0 <= k < |lines| && f(lines[k]) == Some(u)
      {
        if f(lines[0]) == Some(u) {
        } else {
          assert u in Collect(f, lines[1..]);
          var k :| 0 <= k < |lines[1..]| && f(lines[1..][k]) == Some(u);
          assert f(lines[k + 1]) == Some(u);
        }
      }
    }
  }

  /** A line that yields nothing whenever it is blank gives at most one
      utterance per non-blank line: never more than the text reader loads
      from the same lines. */
  lemma {:induction false} CollectAtMostNonBlank(f: string -> Option<string>, lines: seq<string>)
    requires forall k :: 0 <= k < |lines| && Strip(lines[k]) == [] ==> f(lines[k]) == None
    ensures |Collect(f, lines)| <= |TextDialogues(lines)|
  {
    if lines != [] {
      CollectAtMostNonBlank(f, lines[1..]);
      if Strip(lines[0]) == [] {
        assert TextDialogues(lines) == TextDialogues(lines[1..]);
      } else {
        assert TextDialogues(lines) == [Strip(lines[0])] + TextDialogues(lines[1..]);
      }
    }
  }

  /** Whatever is captured from a single-line text, stripped, is a single
      line too. */
  lemma CaptureNoBreak(raw: string, k: nat)
    requires NoBreak(raw) && k <= |Strip(raw)|
    ensures NoBreak(Strip(Strip(raw)[k..]))
  {
    NoBreakChars(raw, Strip(raw));
    SuffixNoBreak(Strip(raw), k);
  }

  lemma SuffixNoBreak(line: string, k: nat)
    requires NoBreak(line) && k <= |line|
    ensures NoBreak(Strip(line[k..]))
  {
    NoBreakInfix(line, k, |line|);
    assert line[k..|line|] == line[k..];
    NoBreakChars(line[k..], Strip(line[k..]));
  }

  /** The utterances of two stretches of a listing are those of each, in
      order: every file is processed on its own. */
  lemma {:induction false} FromDirectoryAppend(f: string -> Option<string>, a: seq<Entry>, b: seq<Entry>)
    ensures FromDirectory(f, a + b) == FromDirectory(f, a) + FromDirectory(f, b)
  {
    if a == [] {
      assert a + b == b;
    } else {
      assert (a + b)[0] == a[0] && (a + b)[1..] == a[1..] + b;
      FromDirectoryAppend(f, a[1..], b);
    }
  }

  lemma FromDirectorySnoc(f: string -> Option<string>, d: seq<Entry>, e: Entry)
    ensures FromDirectory(f, d + [e]) == FromDirectory(f, d) + FromEntry(f, e)
  {
    FromDirectoryAppend(f, d, [e]);
    assert [e][1..] == [];
    assert FromDirectory(f, [e]) == FromEntry(f, e) + FromDirectory(f, []);
  }

  /** A file that cannot be read, or is not a `.txt` file, contributes nothing
      and leaves every other file's utterances as they were. */
  lemma SkippedEntry(f: string -> Option<string>, a: seq<Entry>, e: Entry, b: seq<Entry>)
    requires !IsTextFile(e.name) || e.content.None?
    ensures FromDirectory(f, a + [e] + b) == FromDirectory(f, a) + FromDirectory(f, b)
  {
    assert [e][0] == e && [e][1..] == [];
    assert FromDirectory(f, [e]) == [];
    FromDirectoryAppend(f, a, [e]);
    assert FromDirectory(f, a + [e]) == FromDirectory(f, a);
    FromDirectoryAppend(f, a + [e], b);
  }

  /** Every utterance of a directory comes from some line of some readable
      `.txt` file in it. */
  lemma {:induction false} FromDirectorySources(f: string -> Option<string>, dir: seq<Entry>)
    ensures forall u :: u in FromDirectory(f, dir) ==>
      exists i :: 0 <= i < |dir| && IsTextFile(dir[i].name) && dir[i].content.Some?
        && u in Collect(f, ReadLines(dir[i].content.value))
  {
    if dir != [] {
      FromDirectorySources(f, dir[1..]);
      forall u | u in FromDirectory(f, dir)
        ensures exists i :: (0 <= i < |dir| && IsTextFile(dir[i].name) && dir[i].content.Some?
                             && u in Collect(f, ReadLines(dir[i].content.value)))
      {
        if u in FromEntry(f, dir[0]) {
          assert IsTextFile(dir[0].name) && dir[0].content.Some?;
        } else {
          assert u in FromDirectory(f, dir[1..]);
          var i :| 0 <= i < |dir[1..]| && IsTextFile(dir[1..][i].name) && dir[1..][i].content.Some?
            && u in Collect(f, ReadLines(dir[1..][i].content.value));
          assert dir[i + 1] == dir[1..][i];
        }
      }
    }
  }

  /** When every line a function accepts yields a single-line stripped
      non-empty text, so does every utterance of a directory. */
  lemma LinesFromDirectory(f: string -> Option<string>, dir: seq<Entry>)
    requires forall l :: NoBreak(l) && f(l).Some? ==> IsLine(f(l).value)
    ensures forall u :: u in FromDirectory(f, dir) ==> IsLine(u)
  {
    FromDirectorySources(f, dir);
    forall u | u in FromDirectory(f, dir) ensures IsLine(u) {
      var i :| 0 <= i < |dir| && IsTextFile(dir[i].name) && dir[i].content.Some?
        && u in Collect(f, ReadLines(dir[i].content.value));
      var lines := ReadLines(dir[i].content.value);
      CollectSources(f, lines);
      var k :| 0 <= k < |lines| && f(lines[k]) == Some(u);
      assert NoBreak(lines[k]);
    }
  }

  /** A property every accepted line's utterance has holds of every utterance
      of a directory. */
  lemma KeptFromDirectory(f: string -> Option<string>, ok: string -> bool, dir: seq<Entry>)
    requires forall l :: f(l).Some? ==> ok(f(l).value)
    ensures forall u :: u in FromDirectory(f, dir) ==> ok(u)
  {
    FromDirectorySources(f, dir);
    forall u | u in FromDirectory(f, dir) ensures ok(u) {
      var i :| 0 <= i < |dir| && IsTextFile(dir[i].name) && dir[i].content.Some?
        && u in Collect(f, ReadLines(dir[i].content.value));
      CollectSources(f, ReadLines(dir[i].content.value));
    }
  }

  /** When one extractor agrees with another on every line the first
      accepts, its utterances are an in-order selection of the other's. */
  lemma {:induction false} CollectSubseq(f: string -> Option<string>, g: string -> Option<string>, lines: seq<string>)
    requires forall l :: f(l).Some? ==> g(l) == f(l)
    ensures IsSubseq(Collect(f, lines), Collect(g, lines))
  {
    if lines != [] {
      CollectSubseq(f, g, lines[1..]);
      var a, b := Collect(f, lines[1..]), Collect(g, lines[1..]);
      match f(lines[0]) {
        case Some(u) =>
          assert Collect(f, lines) == [u] + a && Collect(g, lines) == [u] + b;
          assert ([u] + a)[1..] == a && ([u] + b)[1..] == b;
        case None =>
          if g(lines[0]).Some? {
            assert Collect(g, lines) == [g(lines[0]).value] + b;
            assert ([g(lines[0]).value] + b)[1..] == b;
            SubseqDropFirst(a, [g(lines[0]).value] + b);
          }
      }
    }
  }

  lemma {:induction false} FromDirectorySubseq(f: string -> Option<string>, g: string -> Option<string>, dir: seq<Entry>)
    requires forall l :: f(l).Some? ==> g(l) == f(l)
    ensures IsSubseq(FromDirectory(f, dir), FromDirectory(g, dir))
  {
    if dir != [] {
      FromDirectorySubseq(f, g, dir[1..]);
      if IsTextFile(dir[0].name) && dir[0].content.Some? {
        CollectSubseq(f, g, ReadLines(dir[0].content.value));
      } else {
        assert IsSubseq(FromEntry(f, dir[0]), FromEntry(g, dir[0]));
      }
      SubseqAppend(FromEntry(f, dir[0]), FromEntry(g, dir[0]), FromDirectory(f, dir[1..]), FromDirectory(g, dir[1..]));
    }
  }

  /** What the extractors write is what the text loader reads back: the
      output file, loaded through `load_dialogues_from_file`, gives exactly
      the extracted utterances in order. */
  lemma WrittenOutputLoadsBack(f: string -> Option<string>, dir: seq<Entry>, path: string,
                               parseCsv: string -> Option<Table>, parseJson: string -> Option<Json>,
                               render: Json -> string)
    requires forall l :: NoBreak(l) && f(l).Some? ==> IsLine(f(l).value)
    requires Lower(Extension(path)) == ".txt"
    ensures var us := FromDirectory(f, dir);
      Load(path, Some(WriteLines(us)), parseCsv, parseJson, render) == Ok(AsJson(us))
  {
    var us := FromDirectory(f, dir);
    LinesFromDirectory(f, dir);
    LoadWritten(path, us, parseCsv, parseJson, render);
  }
}
