/** The three export encoders of util.js: `.strings`, XLIFF 1.2 and the JSON file that carries the
    Smartling directives. The file writes are left to the caller: each encoder returns the text. */
module Export {
  import opened Dict

  datatype Result<T> = Success(value: T) | Failure(error: string)

  /** Number of occurrences of `c` in `s`. */
  function Occurrences(c: char, s: string): (n: nat)
    ensures n <= |s|
    ensures n == 0 <==> c !in s
    decreases |s|
  {
    if s == [] then 0 else (if s[0] == c then 1 else 0) + Occurrences(c, s[1..])
  }

  lemma {:induction false} OccurrencesAppend(c: char, a: string, b: string)
    ensures Occurrences(c, a + b) == Occurrences(c, a) + Occurrences(c, b)
    decreases |a|
  {
    if a == [] {
      assert a + b == b;
    } else {
      assert (a + b)[1..] == a[1..] + b;
      OccurrencesAppend(c, a[1..], b);
    }
  }

  /** `value.replace(/(?:\r\n|\r|\n)/g, '\\n')`: every line break, whether CR LF, a lone CR or a
      lone LF, becomes the two characters backslash and `n`. The alternation tries CR LF first. */
  function EscapeNewlines(s: string): (r: string)
    ensures '\r' !in r && '\n' !in r
    decreases |s|
  {
    if s == [] then []
    else if |s| >= 2 && s[0] == '\r' && s[1] == '\n' then "\\n" + EscapeNewlines(s[2..])
    else if s[0] == '\r' || s[0] == '\n' then "\\n" + EscapeNewlines(s[1..])
    else [s[0]] + EscapeNewlines(s[1..])
  }

  /** A value without line breaks is written as it is. */
  lemma {:induction false} EscapeWithoutBreaks(s: string)
    requires '\r' !in s && '\n' !in s
    ensures EscapeNewlines(s) == s
    decreases |s|
  {
    if s != [] {
      assert s[0] in s;
      assert forall c :: c in s[1..] ==> c in s;
      EscapeWithoutBreaks(s[1..]);
      assert EscapeNewlines(s) == [s[0]] + EscapeNewlines(s[1..]);
      assert [s[0]] + s[1..] == s;
    }
  }

  /** Escaping twice is escaping once. */
  lemma EscapeIdempotent(s: string)
    ensures EscapeNewlines(EscapeNewlines(s)) == EscapeNewlines(s)
  {
    EscapeWithoutBreaks(EscapeNewlines(s));
  }

  /** Escaping works piece by piece, except across a CR LF pair split between the pieces. */
  lemma {:induction false} EscapeAppend(a: string, b: string)
    requires !(a != [] && a[|a| - 1] == '\r' && b != [] && b[0] == '\n')
    ensures EscapeNewlines(a + b) == EscapeNewlines(a) + EscapeNewlines(b)
    decreases |a|
  {
    if a == [] {
      assert a + b == b;
    } else if |a| >= 2 && a[0] == '\r' && a[1] == '\n' {
      assert (a + b)[2..] == a[2..] + b;
      EscapeAppend(a[2..], b);
    } else {
      var ab := a + b;
      assert ab[0] == a[0] && ab[1..] == a[1..] + b;
      assert !(|ab| >= 2 && ab[0] == '\r' && ab[1] == '\n') by {
        if |a| >= 2 { assert ab[1] == a[1]; } else { assert |a| == 1; }
      }
      EscapeAppend(a[1..], b);
      var head := if a[0] == '\r' || a[0] == '\n' then "\\n" else [a[0]];
      assert EscapeNewlines(a) == head + EscapeNewlines(a[1..]);
      assert EscapeNewlines(ab) == head + EscapeNewlines(a[1..] + b);
    }
  }

  /** A lone CR or a lone LF is one line break and gives one escape. */
  lemma EscapeLoneBreak(a: string, c: char, b: string)
    requires c == '\r' || c == '\n'
    requires '\r' !in a && '\n' !in a && '\r' !in b && '\n' !in b
    ensures EscapeNewlines(a + [c] + b) == a + "\\n" + b
  {
    EscapeWithoutBreaks(a);
    EscapeWithoutBreaks(b);
    EscapeAppend(a, [c] + b);
    assert EscapeNewlines([c] + b) == "\\n" + EscapeNewlines(b) by {
      assert ([c] + b)[1..] == b;
      assert !(|[c] + b| >= 2 && ([c] + b)[1] == '\n') by {
        if b != [] { assert b[0] in b; }
      }
    }
    assert a + [c] + b == a + ([c] + b);
  }

  /** A CR LF pair is one line break and gives one escape, not two. */
  lemma EscapeCrLf(a: string, b: string)
    requires '\r' !in a && '\n' !in a && '\r' !in b && '\n' !in b
    ensures EscapeNewlines(a + "\r\n" + b) == a + "\\n" + b
  {
    EscapeWithoutBreaks(a);
    EscapeWithoutBreaks(b);
    EscapeAppend(a, "\r\n" + b);
    assert EscapeNewlines("\r\n" + b) == "\\n" + EscapeNewlines(b) by {
      assert ("\r\n" + b)[2..] == b;
    }
    assert a + "\r\n" + b == a + ("\r\n" + b);
  }

  /** The text a `for (var key in data)` loop builds by appending one piece per entry. */
  function ConcatMap(d: seq<Entry>, piece: Entry -> string): string
    decreases |d|
  {
    if d == [] then "" else ConcatMap(d[..|d| - 1], piece) + piece(d[|d| - 1])
  }

  /** Encoding a concatenation of objects is concatenating their encodings. */
  lemma {:induction false} ConcatMapAppend(a: seq<Entry>, b: seq<Entry>, piece: Entry -> string)
    ensures ConcatMap(a + b, piece) == ConcatMap(a, piece) + ConcatMap(b, piece)
    decreases |b|
  {
    if b == [] {
      assert a + b == a;
    } else {
      var n := |b| - 1;
      assert (a + b)[..|a + b| - 1] == a + b[..n];
      ConcatMapAppend(a, b[..n], piece);
    }
  }

  /** One more turn of the loop appends the next entry's piece. */
  lemma ConcatMapSnoc(d: seq<Entry>, i: nat, piece: Entry -> string)
    requires i < |d|
    ensures ConcatMap(d[..i + 1], piece) == ConcatMap(d[..i], piece) + piece(d[i])
  {
    assert d[..i + 1][..i] == d[..i];
  }

  // .strings

  /** `'"' + key + '" = "' + value + '";\n'` with the value escaped. */
  function StringsLine(e: Entry): string {
    "\"" + e.key + "\" = \"" + EscapeNewlines(e.value) + "\";\n"
  }

  /** The text `exportStringsToFile` writes: one line per entry, in the object's key order. */
  function StringsFileText(d: seq<Entry>): string {
    ConcatMap(d, StringsLine)
  }

  /** With keys free of line feeds, the file has exactly one line per entry: escaping keeps each
      value on its own line. */
  lemma {:induction false} StringsFileOneLinePerEntry(d: seq<Entry>)
    requires forall i :: 0 <= i < |d| ==> '\n' !in d[i].key
    ensures Occurrences('\n', StringsFileText(d)) == |d|
    decreases |d|
  {
    if d != [] {
      var n := |d| - 1;
      StringsFileOneLinePerEntry(d[..n]);
      var e := d[n];
      OccurrencesAppend('\n', ConcatMap(d[..n], StringsLine), StringsLine(e));
      var v := EscapeNewlines(e.value);
      assert StringsLine(e) == "\"" + e.key + "\" = \"" + v + "\";" + "\n";
      OccurrencesAppend('\n', "\"" + e.key + "\" = \"" + v + "\";", "\n");
      OccurrencesAppend('\n', "\"" + e.key + "\" = \"" + v, "\";");
      OccurrencesAppend('\n', "\"" + e.key + "\" = \"", v);
      OccurrencesAppend('\n', "\"" + e.key, "\" = \"");
      OccurrencesAppend('\n', "\"", e.key);
    }
  }

  /** Position of the first `c` in `s`, or |s| when there is none. */
  function IndexOf(c: char, s: string): (i: nat)
    ensures i <= |s|
    ensures i < |s| ==> s[i] == c
    ensures forall j :: 0 <= j < i ==> s[j] != c
    decreases |s|
  {
    if s == [] then 0 else if s[0] == c then 0 else 1 + IndexOf(c, s[1..])
  }

  /** The first `c` in `a + t` is the one that opens `t`, when `a` holds none. */
  lemma IndexOfAfter(c: char, a: string, t: string)
    requires c !in a && t != [] && t[0] == c
    ensures IndexOf(c, a + t) == |a|
  {
    var s := a + t;
    assert s[|a|] == c;
  }

  /** Reading one line of a `.strings` file, without its line feed: the key runs from the opening
      quote to the next quote, and the value sits between ` = "` and the closing `";`. */
  function ParseLine(line: string): Option<Entry> {
    if |line| < 1 || line[0] != '"' then None
    else
      var q := 1 + IndexOf('"', line[1..]);
      var rest := line[q..];
      if |rest| < 7 || rest[..5] != "\" = \"" || rest[|rest| - 2..] != "\";" then None
      else Some(Entry(line[1..q], rest[5..|rest| - 2]))
  }

  /** Reading a `.strings` file back, one line-feed-terminated line per entry. */
  function DecodeStrings(text: string): Option<seq<Entry>>
    decreases |text|
  {
    if text == [] then Some([])
    else
      var i := IndexOf('\n', text);
      if i == |text| then None
      else
        match ParseLine(text[..i])
        case None => None
        case Some(e) =>
          match DecodeStrings(text[i + 1..])
          case None => None
          case Some(rest) => Some([e] + rest)
  }

  /** The entries with their values escaped, as the encoders write them. */
  function Escaped(d: seq<Entry>): (r: seq<Entry>)
  {
    seq(|d|, i requires 0 <= i < |d| => Entry(d[i].key, EscapeNewlines(d[i].value)))
  }

  /** A line written for a key without quotes reads back as that key and value. */
  lemma ParseLineRoundTrip(key: string, value: string)
    requires '"' !in key
    ensures ParseLine("\"" + key + "\" = \"" + value + "\";") == Some(Entry(key, value))
  {
    var rest := "\" = \"" + value + "\";";
    var line := "\"" + key + "\" = \"" + value + "\";";
    assert line == "\"" + (key + rest);
    assert line[1..] == key + rest;
    IndexOfAfter('"', key, rest);
    var q := 1 + |key|;
    assert line[q..] == rest;
    assert rest[..5] == "\" = \"";
    assert rest[|rest| - 2..] == "\";";
    assert rest[5..|rest| - 2] == value;
    assert line[1..q] == key;
  }

  /** Each line is read up to its own line feed. */
  lemma DecodeFirstLine(line: string, more: string, e: Entry, r: seq<Entry>)
    requires '\n' !in line
    requires ParseLine(line) == Some(e) && DecodeStrings(more) == Some(r)
    ensures DecodeStrings(line + "\n" + more) == Some([e] + r)
  {
    var text := line + "\n" + more;
    assert text == line + ("\n" + more);
    IndexOfAfter('\n', line, "\n" + more);
    assert text[..|line|] == line;
    assert text[|line| + 1..] == more;
  }

  /** The first entry's line, then the rest of the file. */
  lemma StringsFileFirstLine(d: seq<Entry>)
    requires d != []
    ensures StringsFileText(d) ==
              "\"" + d[0].key + "\" = \"" + EscapeNewlines(d[0].value) + "\";" + "\n" + StringsFileText(d[1..])
  {
    var e := d[0];
    assert d == [e] + d[1..];
    ConcatMapAppend([e], d[1..], StringsLine);
    assert [e][..0] == [];
    assert ConcatMap([e], StringsLine) == StringsLine(e);
  }

  /** Reading the first line of a file yields the first entry with its value escaped. */
  lemma StringsFileStep(d: seq<Entry>, r: seq<Entry>)
    requires d != [] && '"' !in d[0].key && '\n' !in d[0].key
    requires DecodeStrings(StringsFileText(d[1..])) == Some(r)
    ensures DecodeStrings(StringsFileText(d)) == Some([Entry(d[0].key, EscapeNewlines(d[0].value))] + r)
  {
    var v := EscapeNewlines(d[0].value);
    var line := "\"" + d[0].key + "\" = \"" + v + "\";";
    StringsFileFirstLine(d);
    assert '\n' !in line;
    ParseLineRoundTrip(d[0].key, v);
    DecodeFirstLine(line, StringsFileText(d[1..]), Entry(d[0].key, v), r);
  }

  lemma EscapedCons(d: seq<Entry>)
    requires d != []
    ensures Escaped(d) == [Entry(d[0].key, EscapeNewlines(d[0].value))] + Escaped(d[1..])
  {
  }

  /** Reading back a `.strings` file gives every entry, in order, with its value escaped, provided
      no key holds a quote or a line feed. */
  lemma {:induction false} StringsFileRoundTrip(d: seq<Entry>)
    requires forall i :: 0 <= i < |d| ==> '"' !in d[i].key && '\n' !in d[i].key
    ensures DecodeStrings(StringsFileText(d)) == Some(Escaped(d))
    decreases |d|
  {
    if d != [] {
      StringsFileRoundTrip(d[1..]);
      StringsFileStep(d, Escaped(d[1..]));
      EscapedCons(d);
    } else {
      assert Escaped(d) == [];
    }
  }

  /** When no value holds a line break, the `.strings` file reads back as the catalogue itself. */
  lemma StringsFileRoundTripExact(d: seq<Entry>)
    requires forall i :: 0 <= i < |d| ==> '"' !in d[i].key && '\n' !in d[i].key
    requires forall i :: 0 <= i < |d| ==> '\r' !in d[i].value && '\n' !in d[i].value
    ensures DecodeStrings(StringsFileText(d)) == Some(d)
  {
    StringsFileRoundTrip(d);
    forall i | 0 <= i < |d| ensures Escaped(d)[i] == d[i] {
      EscapeWithoutBreaks(d[i].value);
    }
    assert Escaped(d) == d;
  }

  /** `exportStringsToFile(data, fileUrl)`, returning the text it writes. */
  method ExportStringsToFile(data: Dictionary) returns (output: string)
    ensures output == StringsFileText(data.entries)
  {
    output := "";
    var entries := data.entries;
    var i := 0;
    while i < |entries|
      invariant 0 <= i <= |entries|
      invariant output == StringsFileText(entries[..i])
    {
      var key := entries[i].key;
      var value := EscapeNewlines(entries[i].value);
      var line := "\"" + key + "\" = \"" + value + "\";\n";
      ConcatMapSnoc(entries, i, StringsLine);
      output := output + line;
      i := i + 1;
    }
    assert entries[..i] == entries;
  }

  // XLIFF

  const XliffHeader: string :=
    "<?xml version=\"1.0\" encoding=\"UTF-8\"?>\n<xliff version=\"1.2\" xmlns=\"urn:oasis:names:tc:xliff:document:1.2\" xsi:schemaLocation=\"urn:oasis:names:tc:xliff:document:1.2 xliff-core-1.2-strict.xsd\">\n<file original=\"smartling_offline_cat_data.xliff\" source-language=\"en-US\" target-language=\" \" datatype=\"plaintext\">\n<header>\n</header>\n<body>\n\n"

  const XliffFooter: string := "</body>\n</file>\n</xliff>"

  /** The fixed text of a `<trans-unit>`: before the key, between key and value, after the value. */
  const UnitOpen: string := "<trans-unit resname=\""
  const UnitMiddle: string := "\">\n<source>"
  const UnitClose: string := "</source>\n<target></target>\n</trans-unit>\n\n"

  /** One `<trans-unit>` with the key as `resname`, the escaped value as source and an empty
      target. */
  function TransUnit(e: Entry): string {
    UnitOpen + e.key + UnitMiddle + EscapeNewlines(e.value) + UnitClose
  }

  /** The units of the entries, in the object's key order. */
  function XliffBody(d: seq<Entry>): string {
    ConcatMap(d, TransUnit)
  }

  /** The document `exportStringsToXliff` writes. */
  function XliffText(d: seq<Entry>): string {
    XliffHeader + XliffBody(d) + XliffFooter
  }

  /** Reading one unit: the key runs to the next quote and the value to the next `<`. Returns
      the entry and the text after the unit. */
  function ParseUnit(text: string): (r: Option<(Entry, string)>)
    ensures r.Some? ==> |r.value.1| < |text|
  {
    if |text| < |UnitOpen| || text[..|UnitOpen|] != UnitOpen then None
    else ParseUnitKey(text[|UnitOpen|..])
  }

  function ParseUnitKey(text: string): (r: Option<(Entry, string)>)
    ensures r.Some? ==> |r.value.1| < |text|
  {
    var q := IndexOf('"', text);
    var afterKey := text[q..];
    if |afterKey| < |UnitMiddle| || afterKey[..|UnitMiddle|] != UnitMiddle then None
    else ParseUnitValue(text[..q], afterKey[|UnitMiddle|..])
  }

  function ParseUnitValue(key: string, text: string): (r: Option<(Entry, string)>)
    ensures r.Some? ==> |r.value.1| < |text|
  {
    var l := IndexOf('<', text);
    var afterValue := text[l..];
    if |afterValue| < |UnitClose| || afterValue[..|UnitClose|] != UnitClose then None
    else Some((Entry(key, text[..l]), afterValue[|UnitClose|..]))
  }

  function DecodeUnits(text: string): Option<seq<Entry>>
    decreases |text|
  {
    if text == [] then Some([])
    else
      match ParseUnit(text)
      case None => None
      case Some((e, rest)) =>
        match DecodeUnits(rest)
        case None => None
        case Some(more) => Some([e] + more)
  }

  /** Reading an XLIFF document back: header, units, footer. */
  function DecodeXliff(doc: string): Option<seq<Entry>> {
    if |doc| < |XliffHeader| + |XliffFooter| || doc[..|XliffHeader|] != XliffHeader
       || doc[|doc| - |XliffFooter|..] != XliffFooter
    then None
    else DecodeUnits(doc[|XliffHeader|..|doc| - |XliffFooter|])
  }

  /** Escaping adds only backslashes and `n`s, so it never introduces another character. */
  lemma {:induction false} EscapeAddsNothing(c: char, s: string)
    requires c !in s && c != '\\' && c != 'n'
    ensures c !in EscapeNewlines(s)
    decreases |s|
  {
    if s != [] {
      if |s| >= 2 && s[0] == '\r' && s[1] == '\n' {
        EscapeAddsNothing(c, s[2..]);
      } else {
        EscapeAddsNothing(c, s[1..]);
      }
    }
  }

  /** A unit for a key without quotes and a value without `<` reads back as that entry. */
  lemma ParseUnitValueRoundTrip(key: string, value: string, rest: string)
    requires '<' !in value
    ensures ParseUnitValue(key, value + UnitClose + rest) == Some((Entry(key, value), rest))
  {
    var afterValue := UnitClose + rest;
    var text := value + afterValue;
    assert text == value + UnitClose + rest;
    IndexOfAfter('<', value, afterValue);
    assert text[..|value|] == value && text[|value|..] == afterValue;
    assert afterValue[..|UnitClose|] == UnitClose && afterValue[|UnitClose|..] == rest;
  }

  lemma ParseUnitKeyRoundTrip(key: string, value: string, rest: string)
    requires '"' !in key && '<' !in value
    ensures ParseUnitKey(key + UnitMiddle + value + UnitClose + rest) == Some((Entry(key, value), rest))
  {
    var afterMiddle := value + UnitClose + rest;
    var afterKey := UnitMiddle + afterMiddle;
    var text := key + afterKey;
    assert text == key + UnitMiddle + value + UnitClose + rest;
    IndexOfAfter('"', key, afterKey);
    assert text[..|key|] == key && text[|key|..] == afterKey;
    assert afterKey[..|UnitMiddle|] == UnitMiddle && afterKey[|UnitMiddle|..] == afterMiddle;
    ParseUnitValueRoundTrip(key, value, rest);
  }

  /** A unit for a key without quotes and a value without `<` reads back as that entry. */
  lemma ParseUnitRoundTrip(key: string, value: string, rest: string)
    requires '"' !in key && '<' !in value
    ensures ParseUnit(UnitOpen + key + UnitMiddle + value + UnitClose + rest) == Some((Entry(key, value), rest))
  {
    var afterOpen := key + UnitMiddle + value + UnitClose + rest;
    var text := UnitOpen + afterOpen;
    assert text == UnitOpen + key + UnitMiddle + value + UnitClose + rest;
    assert text[..|UnitOpen|] == UnitOpen && text[|UnitOpen|..] == afterOpen;
    ParseUnitKeyRoundTrip(key, value, rest);
  }

  /** The first entry's unit, then the rest of the body. */
  lemma XliffBodyFirstUnit(d: seq<Entry>)
    requires d != []
    ensures XliffBody(d) == TransUnit(d[0]) + XliffBody(d[1..])
  {
    var e := d[0];
    assert d == [e] + d[1..];
    ConcatMapAppend([e], d[1..], TransUnit);
    assert [e][..0] == [];
    assert ConcatMap([e], TransUnit) == TransUnit(e);
  }

  lemma XliffBodyStep(d: seq<Entry>, r: seq<Entry>)
    requires d != [] && '"' !in d[0].key && '<' !in d[0].value
    requires DecodeUnits(XliffBody(d[1..])) == Some(r)
    ensures DecodeUnits(XliffBody(d)) == Some([Entry(d[0].key, EscapeNewlines(d[0].value))] + r)
  {
    var v := EscapeNewlines(d[0].value);
    EscapeAddsNothing('<', d[0].value);
    XliffBodyFirstUnit(d);
    ParseUnitRoundTrip(d[0].key, v, XliffBody(d[1..]));
  }

  lemma {:induction false} XliffBodyRoundTrip(d: seq<Entry>)
    requires forall i :: 0 <= i < |d| ==> '"' !in d[i].key && '<' !in d[i].value
    ensures DecodeUnits(XliffBody(d)) == Some(Escaped(d))
    decreases |d|
  {
    if d != [] {
      XliffBodyRoundTrip(d[1..]);
      XliffBodyStep(d, Escaped(d[1..]));
      EscapedCons(d);
    } else {
      assert Escaped(d) == [];
    }
  }

  /** Reading back an XLIFF document gives every entry, in order, with its value escaped,
      provided no key holds a quote and no value holds a `<`: neither is escaped on the way out. */
  lemma XliffRoundTrip(d: seq<Entry>)
    requires forall i :: 0 <= i < |d| ==> '"' !in d[i].key && '<' !in d[i].value
    ensures DecodeXliff(XliffText(d)) == Some(Escaped(d))
  {
    var body := XliffBody(d);
    var doc := XliffHeader + body + XliffFooter;
    assert doc[..|XliffHeader|] == XliffHeader;
    assert doc[|doc| - |XliffFooter|..] == XliffFooter;
    assert doc[|XliffHeader|..|doc| - |XliffFooter|] == body;
    XliffBodyRoundTrip(d);
  }

  /** `exportStringsToXliff(data, pathUrl)`, returning the text it writes. */
  method ExportStringsToXliff(data: Dictionary) returns (fileContents: string)
    ensures fileContents == XliffText(data.entries)
  {
    var body := "";
    var entries := data.entries;
    var i := 0;
    while i < |entries|
      invariant 0 <= i <= |entries|
      invariant body == XliffBody(entries[..i])
    {
      var key := entries[i].key;
      var value := EscapeNewlines(entries[i].value);
      var unit := UnitOpen + key + UnitMiddle + value + UnitClose;
      ConcatMapSnoc(entries, i, TransUnit);
      body := body + unit;
      i := i + 1;
    }
    assert entries[..i] == entries;
    fileContents := XliffHeader + body + XliffFooter;
  }

  // JSON

  /** The Smartling directives put in front of the serialised object's first key. */
  const Directives: string :=
    "{\n  \"smartling\": {\n    \"translate_paths\": {\n      \"path\": \"/*\",\n      \"key\": \"{*}\",\n      \"string_format_paths\": \"html: *\"\n    }\n  },"

  /** `directives + json.substringFromIndex(1)`: the opening brace of the serialised object is
      replaced by the directives. `substringFromIndex:1` raises a range exception on an empty
      string. */
  function JsonWithDirectives(serialised: string): (r: Result<string>)
    ensures r.Failure? <==> serialised == []
    ensures r.Success? ==> |r.value| == |Directives| + |serialised| - 1 && r.value[..|Directives|] == Directives
  {
    if serialised == [] then Failure("NSRangeException")
    else Success(Directives + serialised[1..])
  }

  /** Reading the file back: the directives removed and the brace restored. */
  function StripDirectives(text: string): Option<string> {
    if |Directives| <= |text| && text[..|Directives|] == Directives
    then Some("{" + text[|Directives|..])
    else None
  }

  /** The serialised object is recovered from the file whenever it opens with a brace, as
      serialised JSON objects do. */
  lemma JsonRoundTrip(serialised: string)
    requires serialised != [] && serialised[0] == '{'
    ensures JsonWithDirectives(serialised).Success?
    ensures StripDirectives(JsonWithDirectives(serialised).value) == Some(serialised)
  {
    var text := Directives + serialised[1..];
    assert text[|Directives|..] == serialised[1..];
    assert "{" + serialised[1..] == serialised;
  }

  /** `exportStringsToJson(data, pathUrl)`, returning the text it writes. The serialiser stands for
      `NSJSONSerialization` with pretty printing. */
  method ExportStringsToJson(data: Dictionary, serialise: seq<Entry> -> string)
    returns (json: Result<string>)
    ensures json == JsonWithDirectives(serialise(data.entries))
  {
    var serialised := serialise(data.entries);
    if |serialised| == 0 {
      json := Failure("NSRangeException");
    } else {
      json := Success(Directives + serialised[1..]);
    }
  }
}
