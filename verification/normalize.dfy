/** The two character-class normalisers: `preprocess_text` of the dialogue
    analyzer and `clean_text` of the word-cloud generator. */
module Normalize {
  import opened Text
  import opened Seqs

  /** The CJK range 一 (U+4E00) to 龥 (U+9FA5) named in both patterns. */
  predicate IsHan(c: char) {
    '\U{4E00}' <= c <= '\U{9FA5}'
  }

  /** A character both normalisers keep for its own sake: a CJK ideograph of
      the range, an ASCII letter or an ASCII digit. */
  predicate IsWordChar(c: char) {
    IsHan(c) || ('a' <= c <= 'z') || ('A' <= c <= 'Z') || ('0' <= c <= '9')
  }

  /** The complement of the deleted class `[^一-龥a-zA-Z0-9\s]`. */
  predicate IsKept(c: char) {
    IsWordChar(c) || IsSpace(c)
  }

  /** The substitution `[\s+\n\t]` -> space for one character. */
  function Blank(c: char): char {
    if IsSpace(c) || c == '+' then ' ' else c
  }

  /** No `+` and no whitespace other than the plain space. */
  predicate Blanked(s: string) {
    forall i :: 0 <= i < |s| ==> s[i] != '+' && (IsSpace(s[i]) ==> s[i] == ' ')
  }

  /** The first `re.sub` of `preprocess_text`, character by character. */
  function BlankOut(s: string): (r: string)
    ensures |r| == |s|
    ensures forall i :: 0 <= i < |s| ==> r[i] == Blank(s[i])
  {
    seq(|s|, i requires 0 <= i < |s| => Blank(s[i]))
  }

  /** What the substitution achieves: its result is blanked, a blanked text
      is left as it is, and every character either stays or becomes a space. */
  lemma BlankOutBlanks(s: string)
    ensures Blanked(BlankOut(s))
    ensures Blanked(s) ==> BlankOut(s) == s
    ensures forall i :: 0 <= i < |s| ==> BlankOut(s)[i] == s[i] || BlankOut(s)[i] == ' '
  {
  }

  /** Blanking twice is blanking once. */
  lemma BlankOutIdempotent(s: string)
    ensures BlankOut(BlankOut(s)) == BlankOut(s)
  {
    BlankOutBlanks(s);
    BlankOutBlanks(BlankOut(s));
  }

  /** `preprocess_text`: whitespace and `+` become spaces, every character
      outside the kept class is deleted, and the ends are trimmed. The result
      holds only word characters and plain spaces and does not start or end
      with a space. */
  function Preprocess(text: string): (r: string)
    ensures forall i :: 0 <= i < |r| ==> IsWordChar(r[i]) || r[i] == ' '
    ensures r == [] || (r[0] != ' ' && r[|r| - 1] != ' ')
  {
    var kept := Filter(IsKept, BlankOut(text));
    BlankedClass(text, kept);
    var r := Strip(kept);
    StrippedClass(kept, r);
    r
  }

  lemma BlankedClass(text: string, kept: string)
    requires kept == Filter(IsKept, BlankOut(text))
    ensures forall c :: c in kept ==> IsWordChar(c) || c == ' '
  {
    forall c | c in kept ensures IsWordChar(c) || c == ' ' {
      var i :| 0 <= i < |kept| && kept[i] == c;
      assert IsKept(c) && c in BlankOut(text);
    }
  }

  lemma StrippedClass(kept: string, r: string)
    requires forall c :: c in kept ==> IsWordChar(c) || c == ' '
    requires r == Strip(kept)
    ensures forall i :: 0 <= i < |r| ==> IsWordChar(r[i]) || r[i] == ' '
  {
    forall i | 0 <= i < |r| ensures IsWordChar(r[i]) || r[i] == ' ' {
      assert r[i] in r;
    }
  }

  /** `' '.join([preprocess_text(d) for d in dialogues])`: the whole corpus
      as one text, which holds only word characters and spaces. */
  function CorpusText(dialogues: seq<string>): (r: string)
    ensures forall c :: c in r ==> IsWordChar(c) || c == ' '
  {
    if |dialogues| == 0 then ""
    else
      var p := Preprocess(dialogues[0]);
      assert forall c :: c in p ==> IsWordChar(c) || c == ' ';
      if |dialogues| == 1 then p else p + " " + CorpusText(dialogues[1..])
  }
  /** The joined corpus depends on each dialogue only through its
      preprocessed form: dialogues that differ only in spacing, punctuation
      or other deleted characters give the same corpus text. */
  lemma {:induction false} CorpusTextOfPreprocessed(ds: seq<string>, es: seq<string>)
    requires |ds| == |es|
    requires forall i :: 0 <= i < |ds| ==> Preprocess(ds[i]) == Preprocess(es[i])
    ensures CorpusText(ds) == CorpusText(es)
  {
    if |ds| > 1 {
      CorpusTextOfPreprocessed(ds[1..], es[1..]);
    }
  }


  /** `clean_text`: the same deletion, but whitespace survives unchanged and
      nothing is trimmed. */
  function CleanText(text: string): (r: string)
    ensures forall i :: 0 <= i < |r| ==> IsKept(r[i])
    ensures |r| <= |text|
  {
    Filter(IsKept, text)
  }

  /** A normalised text is a fixed point of the normaliser. */
  lemma PreprocessIdempotent(text: string)
    ensures Preprocess(Preprocess(text)) == Preprocess(text)
  {
    var p := Preprocess(text);
    assert forall i :: 0 <= i < |p| ==> IsWordChar(p[i]) || p[i] == ' ';
    assert p == [] || (p[0] != ' ' && p[|p| - 1] != ' ');
    PreprocessFixed(p);
  }

  /** A text of word characters and single inner spaces is left alone. */
  lemma PreprocessFixed(r: string)
    requires forall i :: 0 <= i < |r| ==> IsWordChar(r[i]) || r[i] == ' '
    requires r == [] || (r[0] != ' ' && r[|r| - 1] != ' ')
    ensures Preprocess(r) == r
  {
    assert BlankOut(r) == r;
    FilterKeepsAll(IsKept, r);
    StripOfStripped(r);
  }

  /** Ignoring spaces, the normaliser keeps exactly the word characters of its
      input, in order: it neither loses nor invents one. */
  lemma PreprocessKeepsWordChars(text: string)
    ensures Filter(IsWordChar, Preprocess(text)) == Filter(IsWordChar, text)
  {
    var b := BlankOut(text);
    var kept := Filter(IsKept, b);
    FilterOfFilter(IsWordChar, IsKept, b);
    BlankOutKeepsWordChars(text);
    StripKeepsWordChars(kept);
  }

  /** Each whitespace character or `+` between two words becomes exactly one
      space: runs are not collapsed. */
  lemma PreprocessKeepsSpacing(u: string, s: string, v: string)
    requires |u| > 0 && |v| > 0
    requires forall i :: 0 <= i < |u| ==> IsWordChar(u[i])
    requires forall i :: 0 <= i < |v| ==> IsWordChar(v[i])
    requires forall i :: 0 <= i < |s| ==> IsSpace(s[i]) || s[i] == '+'
    ensures Preprocess(u + s + v) == u + Spaces(|s|) + v
  {
    var w := u + Spaces(|s|) + v;
    BlankOutSpacing(u, s, v);
    forall i | 0 <= i < |w| ensures IsKept(w[i]) {
      if i < |u| {
        assert w[i] == u[i];
      } else if i >= |u| + |s| {
        assert w[i] == v[i - |u| - |s|];
      }
    }
    assert w[0] == u[0] && w[|w| - 1] == v[|v| - 1];
    PreprocessOfBlanked(u + s + v, w);
  }

  /** When blanking leaves only kept characters and no space at either end,
      nothing more is removed. */
  lemma PreprocessOfBlanked(text: string, w: string)
    requires BlankOut(text) == w
    requires forall i :: 0 <= i < |w| ==> IsKept(w[i])
    requires IsStripped(w)
    ensures Preprocess(text) == w
  {
    FilterKeepsAll(IsKept, w);
    StripOfStripped(w);
  }

  lemma BlankOutSpacing(u: string, s: string, v: string)
    requires forall i :: 0 <= i < |u| ==> IsWordChar(u[i])
    requires forall i :: 0 <= i < |v| ==> IsWordChar(v[i])
    requires forall i :: 0 <= i < |s| ==> IsSpace(s[i]) || s[i] == '+'
    ensures BlankOut(u + s + v) == u + Spaces(|s|) + v
  {
    var t := u + s + v;
    var w := u + Spaces(|s|) + v;
    forall i | 0 <= i < |t| ensures BlankOut(t)[i] == w[i] {
      if i < |u| {
        assert t[i] == u[i] && w[i] == u[i];
      } else if i < |u| + |s| {
        assert t[i] == s[i - |u|] && w[i] == ' ';
      } else {
        assert t[i] == v[i - |u| - |s|] && w[i] == v[i - |u| - |s|];
      }
    }
  }

  function Spaces(n: nat): (r: string)
    ensures |r| == n && forall i :: 0 <= i < n ==> r[i] == ' '
  {
    seq(n, i => ' ')
  }

  lemma {:induction false} BlankOutKeepsWordChars(s: string)
    ensures Filter(IsWordChar, BlankOut(s)) == Filter(IsWordChar, s)
  {
    if s != [] {
      assert BlankOut(s)[1..] == BlankOut(s[1..]);
      BlankOutKeepsWordChars(s[1..]);
    }
  }

  /** Trimming removes only whitespace, never a word character. */
  lemma StripKeepsWordChars(s: string)
    ensures Filter(IsWordChar, Strip(s)) == Filter(IsWordChar, s)
  {
    TrimLeftKeepsWordChars(s);
    TrimRightKeepsWordChars(TrimLeft(s));
  }

  lemma TrimLeftKeepsWordChars(s: string)
    ensures Filter(IsWordChar, TrimLeft(s)) == Filter(IsWordChar, s)
  {
    var l := TrimLeft(s);
    var k := |s| - |l|;
    assert s == s[..k] + l;
    assert AllSpace(s[..k]);
    DropSpacesKeepsWordChars(s[..k], l);
  }

  lemma TrimRightKeepsWordChars(s: string)
    ensures Filter(IsWordChar, TrimRight(s)) == Filter(IsWordChar, s)
  {
    var r := TrimRight(s);
    assert s == r + s[|r|..];
    assert AllSpace(s[|r|..]);
    DropSpacesKeepsWordChars(s[|r|..], []);
    FilterAppend(IsWordChar, r, s[|r|..]);
  }

  lemma DropSpacesKeepsWordChars(sp: string, s: string)
    requires AllSpace(sp)
    ensures Filter(IsWordChar, sp + s) == Filter(IsWordChar, s)
    ensures Filter(IsWordChar, sp) == []
  {
    FilterAppend(IsWordChar, sp, s);
    FilterKeepsNone(IsWordChar, sp);
  }

  /** `clean_text` is exactly the in-order filter of its input by the kept
      class: its result is a subsequence of the input that holds every
      occurrence of every kept character and nothing else. */
  lemma CleanTextIsOrderedFilter(text: string)
    ensures IsSubseq(CleanText(text), text)
    ensures forall c :: multiset(CleanText(text))[c] == if IsKept(c) then multiset(text)[c] else 0
  {
    FilterIsSubseq(IsKept, text);
    FilterCounts(IsKept, text);
  }

  lemma CleanTextIdempotent(text: string)
    ensures CleanText(CleanText(text)) == CleanText(text)
  {
    FilterIdempotent(IsKept, text);
  }

  /** Without `+` in the input, `preprocess_text` is `clean_text` followed by
      turning each whitespace character into a space and trimming. */
  lemma PreprocessIsCleanTextBlankedAndTrimmed(text: string)
    requires '+' !in text
    ensures Preprocess(text) == Strip(BlankOut(CleanText(text)))
  {
    BlankOutCommutes(text);
  }

  lemma {:induction false} BlankOutCommutes(s: string)
    requires '+' !in s
    ensures Filter(IsKept, BlankOut(s)) == BlankOut(Filter(IsKept, s))
  {
    if s != [] {
      assert BlankOut(s)[1..] == BlankOut(s[1..]);
      BlankOutCommutes(s[1..]);
      var f := Filter(IsKept, s[1..]);
      if IsKept(s[0]) {
        assert BlankOut([s[0]] + f) == [Blank(s[0])] + BlankOut(f);
      }
    }
  }

  /** The two normalisers differ on whitespace at the ends of a text ... */
  lemma NormalisersDifferOnEnds()
    ensures CleanText(" a\t") == " a\t" && Preprocess(" a\t") == "a"
  {
    FilterKeepsAll(IsKept, " a\t");
    PreprocessTrimsEnds();
  }

  lemma PreprocessTrimsEnds()
    ensures Preprocess(" a\t") == "a"
  {
    var b := BlankOut(" a\t");
    assert b == " a ";
    FilterKeepsAll(IsKept, b);
    assert " a " == " " + "a ";
    TrimLeftSpaces(" ", "a ");
    TrimRightExample();
  }

  lemma TrimRightExample()
    ensures TrimRight("a ") == "a"
  {
    assert "a "[..1] == "a";
  }

  /** ... and on `+`, which only `preprocess_text` turns into a space. */
  lemma NormalisersDifferOnPlus()
    ensures CleanText("a+b") == "ab" && Preprocess("a+b") == "a b"
  {
    CleanTextDropsPlus();
    var b := BlankOut("a+b");
    assert b == "a b";
    FilterKeepsAll(IsKept, b);
    StripOfStripped(b);
  }

  lemma CleanTextDropsPlus()
    ensures CleanText("a+b") == "ab"
  {
    assert "a+b"[1..] == "+b" && "+b"[1..] == "b" && "b"[1..] == [];
    assert !IsKept('+') && IsKept('a') && IsKept('b');
    assert Filter(IsKept, "b") == "b";
    assert Filter(IsKept, "+b") == "b";
  }
}
