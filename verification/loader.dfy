/** `load_dialogues_from_file`: choosing a reader by file extension and turning
    a text file, a table or a parsed JSON document into the dialogue list. The
    CSV and JSON parsers are parameters; the model starts from what they
    return. */
module Loader {
  import opened Text
  import opened Seqs
  import opened Results

  /** A parsed JSON value, as `json.load` returns it. */
  datatype Json =
    | JNull
    | JBool(b: bool)
    | JNumber(literal: string)
    | JString(s: string)
    | JArray(items: seq<Json>)
    | JObject(fields: map<string, Json>)

  /** A CSV file as `pd.read_csv` sees it: each column name with its cells. */
  type Table = map<string, seq<Json>>

  /** Why `load_dialogues_from_file` returned `False`. */
  datatype LoadError =
    | Unsupported(ext: string)   // no reader for this extension
    | ReadFailed                 // opening or reading the file raised
    | ParseFailed                // the CSV or JSON parser raised
    | MissingColumn              // a CSV without a `dialogue` column
    | NotAList                   // a JSON document that is not a list
    | NoDialogueField            // JSON records without a common dialogue field

  /** `s.rfind(c)`: the index of the last `c` in `s`, or -1. */
  function RFind(s: string, c: char): (r: int)
    ensures -1 <= r < |s|
    ensures r >= 0 ==> s[r] == c
    ensures forall i :: r < i < |s| ==> s[i] != c
  {
    if s == [] then -1
    else if s[|s| - 1] == c then |s| - 1
    else RFind(s[..|s| - 1], c)
  }

  /** `os.path.splitext(path)[1]` on POSIX: from the last dot of the last path
      component to the end, unless that dot is preceded only by dots within the
      component (`.bashrc` has no extension). */
  function Extension(path: string): (e: string)
    ensures e == [] || (EndsWith(path, e) && e[0] == '.')
    ensures forall i :: 0 <= i < |e| ==> e[i] != '/'
    ensures forall i :: 0 < i < |e| ==> e[i] != '.'
  {
    var slash := RFind(path, '/');
    var dot := RFind(path, '.');
    if dot > slash && exists i :: slash < i < dot && path[i] != '.' then
      assert forall i :: 0 <= i < |path[dot..]| ==> path[dot..][i] == path[dot + i];
      path[dot..]
    else []
  }

  /** A name ending in a dot and a dot-free, slash-free suffix has that suffix
      as its extension, as long as something other than a dot or slash
      precedes the dot. */
  lemma ExtensionOfName(stem: string, x: string)
    requires |stem| > 0 && stem[|stem| - 1] != '/' && stem[|stem| - 1] != '.'
    requires '.' !in x && '/' !in x
    ensures Extension(stem + "." + x) == "." + x
  {
    var path := stem + "." + x;
    var slash, dot := RFind(path, '/'), RFind(path, '.');
    assert path[|stem|] == '.';
    forall i | |stem| < i < |path| ensures path[i] != '.' && path[i] != '/' {
      assert path[i] == x[i - |stem| - 1];
    }
    assert dot == |stem|;
    assert path[|stem| - 1] == stem[|stem| - 1];
    assert slash < |stem| - 1;
    assert path[dot..] == "." + x;
  }

  /** Dots that open the last path component do not start an extension. */
  lemma LeadingDotsAreNoExtension(dir: string, dots: string, x: string)
    requires forall i :: 0 <= i < |dots| ==> dots[i] == '.'
    requires '.' !in x && '/' !in x
    ensures Extension(dir + "/" + dots + x) == []
  {
    var path := dir + "/" + dots + x;
    var slash, dot := RFind(path, '/'), RFind(path, '.');
    var base := |dir| + 1;
    assert path[|dir|] == '/';
    forall i | base + |dots| <= i < |path| ensures path[i] != '.' && path[i] != '/' {
      assert path[i] == x[i - base - |dots|];
    }
    forall i | base <= i < base + |dots| ensures path[i] == '.' {
      assert path[i] == dots[i - base];
    }
    assert slash == |dir|;
  }

  /** A stripped, non-empty, single-line text: the shape of every dialogue the
      text reader produces and of every utterance the extractors write. */
  predicate IsLine(u: string) {
    u != [] && IsStripped(u) && NoBreak(u)
  }

  /** `[line.strip() for line in f if line.strip()]`. */
  function TextDialogues(lines: seq<string>): (r: seq<string>)
    ensures |r| <= |lines|
  {
    if lines == [] then []
    else
      var s := Strip(lines[0]);
      var rest := TextDialogues(lines[1..]);
      if s == [] then rest else [s] + rest
  }

  /** Lines that are already stripped and non-blank come back unchanged, in
      the same order. */
  lemma {:induction false} TextDialoguesOfLines(us: seq<string>)
    requires forall k :: 0 <= k < |us| ==> us[k] != [] && IsStripped(us[k])
    ensures TextDialogues(us) == us
  {
    if us != [] {
      StripOfStripped(us[0]);
      TextDialoguesOfLines(us[1..]);
      assert TextDialogues(us) == [us[0]] + us[1..];
    }
  }

  /** Blank lines contribute nothing and the other lines keep their order:
      the dialogues of two stretches of a file are the dialogues of each. */
  lemma {:induction false} TextDialoguesAppend(a: seq<string>, b: seq<string>)
    ensures TextDialogues(a + b) == TextDialogues(a) + TextDialogues(b)
  {
    if a != [] {
      assert (a + b)[0] == a[0] && (a + b)[1..] == a[1..] + b;
      TextDialoguesAppend(a[1..], b);
      var s := Strip(a[0]);
      if s == [] {
        assert TextDialogues(a + b) == TextDialogues(a[1..] + b);
      } else {
        assert TextDialogues(a + b) == [s] + TextDialogues(a[1..] + b);
        assert TextDialogues(a) == [s] + TextDialogues(a[1..]);
      }
    } else {
      assert a + b == b;
    }
  }

  function AsJson(us: seq<string>): (r: seq<Json>)
    ensures |r| == |us| && forall i :: 0 <= i < |us| ==> r[i].JString? && r[i].s == us[i]
  {
    seq(|us|, i requires 0 <= i < |us| => JString(us[i]))
  }

  /** The names a record's dialogue may be stored under, in the order tried. */
  const Fields: seq<string> := ["dialogue", "text", "content", "quote"]

  predicate AllObjects(items: seq<Json>) {
    forall i :: 0 <= i < |items| ==> items[i].JObject?
  }

  /** `all(field in item for item in data)`. */
  predicate AllHave(items: seq<Json>, f: string) {
    forall i :: 0 <= i < |items| ==> items[i].JObject? && f in items[i].fields
  }

  /** The first of `fields` every record carries, if any (the `for ... else`). */
  function FirstField(items: seq<Json>, fields: seq<string>): (r: Option<nat>)
    ensures r.Some? ==> r.value < |fields| && AllHave(items, fields[r.value])
    ensures r.Some? ==> forall j :: 0 <= j < r.value ==> !AllHave(items, fields[j])
    ensures r.None? <==> forall j :: 0 <= j < |fields| ==> !AllHave(items, fields[j])
  {
    if fields == [] then None
    else if AllHave(items, fields[0]) then Some(0)
    else match FirstField(items, fields[1..])
      case None => None
      case Some(k) => Some(k + 1)
  }

  /** `[item[field] for item in data]`. */
  function Column(items: seq<Json>, f: string): (r: seq<Json>)
    requires AllHave(items, f)
    ensures |r| == |items|
  {
    seq(|items|, i requires 0 <= i < |items| => items[i].fields[f])
  }

  /** `str(item)` for a JSON value: a string is its own text; how other values
      print is a parameter. */
  function Str(render: Json -> string, v: Json): string {
    if v.JString? then v.s else render(v)
  }

  /** The JSON branch. A list of records yields the first common dialogue
      field of every record; any other list yields each element as text;
      anything but a list is refused. */
  function FromJson(data: Json, render: Json -> string): (r: Result<seq<Json>, LoadError>)
    ensures r.Err? <==> !data.JArray? || (AllObjects(data.items) && forall f :: f in Fields ==> !AllHave(data.items, f))
    ensures r.Err? ==> r.error == (if data.JArray? then NoDialogueField else NotAList)
    ensures r.Ok? ==> |r.value| == |data.items|
    ensures r.Ok? && AllObjects(data.items) ==>
      exists k :: 0 <= k < |Fields| && AllHave(data.items, Fields[k])
        && (forall j :: 0 <= j < k ==> !AllHave(data.items, Fields[j]))
        && forall i :: 0 <= i < |data.items| ==> r.value[i] == data.items[i].fields[Fields[k]]
    ensures r.Ok? && !AllObjects(data.items) ==>
      forall i :: 0 <= i < |data.items| ==>
        r.value[i].JString? && (data.items[i].JString? ==> r.value[i] == data.items[i])
  {
    if !data.JArray? then Err(NotAList)
    else if AllObjects(data.items) then
      match FirstField(data.items, Fields)
      case None =>
        assert forall f :: f in Fields ==> !AllHave(data.items, f) by {
          forall f | f in Fields ensures !AllHave(data.items, f) {
            var j :| 0 <= j < |Fields| && Fields[j] == f;
          }
        }
        Err(NoDialogueField)
      case Some(k) => Ok(Column(data.items, Fields[k]))
    else
      Ok(seq(|data.items|, i requires 0 <= i < |data.items| => JString(Str(render, data.items[i]))))
  }

  /** An empty JSON list is a list of records with every field, so it loads
      as no dialogues at all. */
  lemma EmptyJsonList(render: Json -> string)
    ensures FromJson(JArray([]), render) == Ok([])
  {
    assert AllHave([], Fields[0]);
  }

  /** The CSV branch: the `dialogue` column, or an error when it is missing. */
  function FromTable(t: Table): (r: Result<seq<Json>, LoadError>)
    ensures r.Ok? <==> "dialogue" in t
    ensures r.Ok? ==> r.value == t["dialogue"]
    ensures r.Err? ==> r.error == MissingColumn
  {
    if "dialogue" in t then Ok(t["dialogue"]) else Err(MissingColumn)
  }

  /** Only the `dialogue` column matters: adding, replacing or removing any
      other column never changes what a CSV loads as, or whether it loads. */
  lemma FromTableOnlyDialogueColumn(t: Table, k: string, col: seq<Json>)
    requires k != "dialogue"
    ensures FromTable(t[k := col]) == FromTable(t)
    ensures FromTable(t - {k}) == FromTable(t)
  {
    assert "dialogue" in t[k := col] <==> "dialogue" in t;
    assert "dialogue" in t - {k} <==> "dialogue" in t;
  }

  /** `load_dialogues_from_file(path)`. `file` is the file's text, `None` when
      opening or reading it raises; the parsers return `None` when they raise. */
  function Load(path: string, file: Option<string>, parseCsv: string -> Option<Table>,
                parseJson: string -> Option<Json>, render: Json -> string): (r: Result<seq<Json>, LoadError>)
    ensures var e := Lower(Extension(path));
      r == Err(Unsupported(e)) <==> e != ".txt" && e != ".csv" && e != ".json"
    ensures r.Ok? ==> file.Some?
    ensures r.Ok? && Lower(Extension(path)) == ".txt" ==>
      forall v :: v in r.value ==> v.JString? && IsLine(v.s)
    ensures Lower(Extension(path)) == ".txt" && file.Some? ==>
      r == Ok(AsJson(TextDialogues(ReadLines(file.value))))
    ensures Lower(Extension(path)) == ".json" && file.Some? && parseJson(file.value).Some? ==>
      r == FromJson(parseJson(file.value).value, render)
    ensures Lower(Extension(path)) == ".csv" && file.Some? && parseCsv(file.value).Some? ==>
      r == FromTable(parseCsv(file.value).value)
    ensures Lower(Extension(path)) == ".json" && file.Some? && parseJson(file.value).None? ==>
      r == Err(ParseFailed)
    ensures Lower(Extension(path)) == ".csv" && file.Some? && parseCsv(file.value).None? ==>
      r == Err(ParseFailed)
    ensures var e := Lower(Extension(path));
      (e == ".txt" || e == ".csv" || e == ".json") && file.None? ==> r == Err(ReadFailed)
  {
    var e := Lower(Extension(path));
    if e == ".txt" then
      match file
      case None => Err(ReadFailed)
      case Some(t) =>
        var ds := TextDialogues(ReadLines(t));
        TextDialoguesAreLines(ReadLines(t));
        Ok(AsJson(ds))
    else if e == ".csv" then
      match file
      case None => Err(ReadFailed)
      case Some(t) =>
        match parseCsv(t)
        case None => Err(ParseFailed)
        case Some(table) => FromTable(table)
    else if e == ".json" then
      match file
      case None => Err(ReadFailed)
      case Some(t) =>
        match parseJson(t)
        case None => Err(ParseFailed)
        case Some(data) => FromJson(data, render)
    else Err(Unsupported(e))
  }

  /** Every dialogue the text reader yields is one stripped, non-empty line. */
  lemma {:induction false} TextDialoguesAreLines(lines: seq<string>)
    requires forall k :: 0 <= k < |lines| ==> NoBreak(lines[k])
    ensures forall u :: u in TextDialogues(lines) ==> IsLine(u)
  {
    if lines != [] {
      TextDialoguesAreLines(lines[1..]);
      var s := Strip(lines[0]);
      if s != [] {
        StrippedLine(lines[0]);
        assert TextDialogues(lines) == [s] + TextDialogues(lines[1..]);
      }
    }
  }

  lemma StrippedLine(l: string)
    requires NoBreak(l) && Strip(l) != []
    ensures IsLine(Strip(l))
  {
    NoBreakChars(l, Strip(l));
  }

  /** Writing single-line, stripped, non-empty texts one per line and loading
      the file as text gives back exactly those texts. */
  lemma LoadWritten(path: string, us: seq<string>, parseCsv: string -> Option<Table>,
                    parseJson: string -> Option<Json>, render: Json -> string)
    requires Lower(Extension(path)) == ".txt"
    requires forall k :: 0 <= k < |us| ==> IsLine(us[k])
    ensures Load(path, Some(WriteLines(us)), parseCsv, parseJson, render) == Ok(AsJson(us))
  {
    ReadWriteLines(us);
    TextDialoguesOfLines(us);
  }
}
