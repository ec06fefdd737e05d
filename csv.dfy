/** `exportToCsv`: the header line, one quoted line per record, and the
    quoting rule `safeValue`. A reader for the quoted lines shows that the
    quoting loses nothing but surrounding whitespace. */
module Csv {
  import opened Wrappers
  import opened Text
  import opened Assets

  /** `String(val).replace(/"/g, '""')`. */
  function Escape(s: string): (r: string)
    ensures |r| >= |s|
  {
    if s == [] then []
    else (if s[0] == '"' then "\"\"" else [s[0]]) + Escape(s[1..])
  }

  /** A value without quotes is exported unchanged between its quotes. */
  lemma {:induction false} EscapeQuoteFree(s: string)
    requires forall i :: 0 <= i < |s| ==> s[i] != '"'
    ensures Escape(s) == s
  {
    if s != [] {
      EscapeQuoteFree(s[1..]);
    }
  }

  /** `safeValue`: the escaped value, trimmed, between double quotes. */
  function SafeValue(v: string): (r: string)
    ensures |r| >= 2 && r[0] == '"'
    ensures ReadQuoted(r[1..]) == Some((Trim(v), []))
  {
    TrimEscape(v);
    ReadEscaped(Trim(v), []);
    assert ("\"" + Escape(Trim(v)) + "\"")[1..] == Escape(Trim(v)) + "\"" + [];
    "\"" + Trim(Escape(v)) + "\""
  }

  lemma {:induction false} EscapeAppend(a: string, b: string)
    ensures Escape(a + b) == Escape(a) + Escape(b)
  {
    if a != [] {
      assert (a + b)[0] == a[0] && (a + b)[1..] == a[1..] + b;
      EscapeAppend(a[1..], b);
      var head := if a[0] == '"' then "\"\"" else [a[0]];
      calc {
        Escape(a + b);
        head + Escape(a[1..] + b);
        head + (Escape(a[1..]) + Escape(b));
        (head + Escape(a[1..])) + Escape(b);
        Escape(a) + Escape(b);
      }
    } else {
      assert a + b == b;
    }
  }

  lemma {:induction false} TrimStartEscape(s: string)
    ensures TrimStart(Escape(s)) == Escape(TrimStart(s))
  {
    if s != [] {
      if IsWhitespace(s[0]) {
        TrimStartEscape(s[1..]);
      } else {
        assert Escape(s)[0] == if s[0] == '"' then '"' else s[0];
      }
    }
  }

  lemma {:induction false} TrimEndEscape(s: string)
    ensures TrimEnd(Escape(s)) == Escape(TrimEnd(s))
    decreases |s|
  {
    if s != [] {
      var init, c := s[..|s| - 1], s[|s| - 1];
      assert s == init + [c];
      EscapeAppend(init, [c]);
      assert Escape([c]) == if c == '"' then "\"\"" else [c];
      if IsWhitespace(c) {
        TrimEndEscape(init);
        assert Escape(s)[..|Escape(s)| - 1] == Escape(init);
      }
    }
  }

  /** Quotes are not whitespace, so doubling them commutes with trimming:
      `safeValue` quotes the trimmed value. */
  lemma TrimEscape(s: string)
    ensures Trim(Escape(s)) == Escape(Trim(s))
  {
    TrimStartEscape(s);
    TrimEndEscape(TrimStart(s));
  }

  /** Reads a quoted field after its opening quote: the text with each doubled
      quote read as one, and what follows the closing quote. */
  function ReadQuoted(s: string): (r: Option<(string, string)>)
    ensures r.Some? ==> |r.value.1| < |s|
    decreases |s|
  {
    if s == [] then None
    else if s[0] == '"' then
      if |s| >= 2 && s[1] == '"' then
        match ReadQuoted(s[2..])
        case None => None
        case Some((v, rest)) => Some(("\"" + v, rest))
      else Some(([], s[1..]))
    else
      match ReadQuoted(s[1..])
      case None => None
      case Some((v, rest)) => Some(([s[0]] + v, rest))
  }

  /** An escaped value followed by a closing quote reads back as the value,
      whatever it contains, as long as no quote follows the closing one. */
  lemma {:induction false} ReadEscaped(v: string, rest: string)
    requires rest == [] || rest[0] != '"'
    ensures ReadQuoted(Escape(v) + "\"" + rest) == Some((v, rest))
  {
    var s := Escape(v) + "\"" + rest;
    if v != [] {
      ReadEscaped(v[1..], rest);
      if v[0] == '"' {
        assert s == "\"\"" + (Escape(v[1..]) + "\"" + rest);
        assert "\"" + v[1..] == v;
      } else {
        assert s == [v[0]] + (Escape(v[1..]) + "\"" + rest);
        assert [v[0]] + v[1..] == v;
      }
    } else {
      assert s == "\"" + rest;
    }
  }

  /** The column titles of the export. */
  const Header: string := "Asset Tag,Name,Category,Location,Status,Date Added"

  /** The six exported values of a record; `date` is its rendered creation date. */
  function Fields(a: Asset, date: string): seq<string> {
    [a.tag, a.name, a.category, a.location, a.status, date]
  }

  /** The quoted values joined with commas. */
  function JoinQuoted(fields: seq<string>): string
    requires |fields| >= 1
  {
    if |fields| == 1 then SafeValue(fields[0])
    else SafeValue(fields[0]) + "," + JoinQuoted(fields[1..])
  }

  /** The export line of one record; `render` is `toLocaleDateString` on the
      creation time. */
  function Line(a: Asset, render: int -> string): string {
    JoinQuoted(Fields(a, render(a.dateAdded))) + "\n"
  }

  /** The text of `parts` written one after another. */
  function Concat(parts: seq<string>): string {
    if parts == [] then ""
    else Concat(parts[..|parts| - 1]) + parts[|parts| - 1]
  }

  lemma {:induction false} ConcatFront(parts: seq<string>)
    requires parts != []
    ensures Concat(parts) == parts[0] + Concat(parts[1..])
    decreases |parts|
  {
    if |parts| > 1 {
      var init := parts[..|parts| - 1];
      ConcatFront(init);
      assert init[1..] == parts[1..][..|parts[1..]| - 1];
    } else {
      assert parts[..0] == [] && parts[1..] == [];
    }
  }

  lemma ConcatPrefix(parts: seq<string>, i: nat)
    requires i < |parts|
    ensures Concat(parts[..i + 1]) == Concat(parts[..i]) + parts[i]
  {
    assert parts[..i + 1][..i] == parts[..i];
  }

  /** The export line of every record, in stored order. */
  function Lines(assets: seq<Asset>, render: int -> string): (r: seq<string>)
    ensures |r| == |assets| && forall i :: 0 <= i < |assets| ==> r[i] == Line(assets[i], render)
  {
    seq(|assets|, i requires 0 <= i < |assets| => Line(assets[i], render))
  }

  /** `exportToCsv` without the download: nothing when there are no records,
      otherwise the header line followed by one line per record. */
  method ExportCsv(assets: seq<Asset>, render: int -> string) returns (csv: Option<string>)
    ensures csv.None? <==> assets == []
    ensures csv.Some? ==> csv.value == Header + "\n" + Concat(Lines(assets, render))
  {
    if |assets| == 0 {
      return None;
    }
    ghost var lines := Lines(assets, render);
    var text := Header + "\n";
    ghost var head := text;
    var i := 0;
    while i < |assets|
      invariant 0 <= i <= |assets|
      invariant text == head + Concat(lines[..i])
    {
      var row := JoinQuoted(Fields(assets[i], render(assets[i].dateAdded)));
      ConcatPrefix(lines, i);
      Assoc(head, Concat(lines[..i]), row + "\n");
      text := text + (row + "\n");
      i := i + 1;
    }
    assert lines[..i] == lines;
    return Some(text);
  }

  /** Reads one line of quoted, comma-separated fields ended by a newline. */
  function ReadLine(s: string): (r: Option<(seq<string>, string)>)
    ensures r.Some? ==> |r.value.1| < |s|
    decreases |s|
  {
    if s == [] || s[0] != '"' then None
    else
      match ReadQuoted(s[1..])
      case None => None
      case Some((v, rest)) =>
        if rest != [] && rest[0] == ',' then
          match ReadLine(rest[1..])
          case None => None
          case Some((vs, after)) => Some(([v] + vs, after))
        else if rest != [] && rest[0] == '\n' then Some(([v], rest[1..]))
        else None
  }

  /** Reads lines until the text is used up. */
  function ReadLines(s: string): Option<seq<seq<string>>>
    decreases |s|
  {
    if s == [] then Some([])
    else
      match ReadLine(s)
      case None => None
      case Some((fields, rest)) =>
        match ReadLines(rest)
        case None => None
        case Some(lines) => Some([fields] + lines)
  }

  function TrimAll(fields: seq<string>): (r: seq<string>)
    ensures |r| == |fields| && forall i :: 0 <= i < |fields| ==> r[i] == Trim(fields[i])
  {
    seq(|fields|, i requires 0 <= i < |fields| => Trim(fields[i]))
  }

  /** `safeValue` is the trimmed value with its quotes doubled, between quotes. */
  lemma SafeValueShape(v: string)
    ensures SafeValue(v) == "\"" + Escape(Trim(v)) + "\""
  {
    TrimEscape(v);
  }

  /** A quoted value followed by a separator reads back as the value and the
      text from the separator on. */
  lemma ReadSafeValue(v: string, sep: char, more: string)
    requires sep == ',' || sep == '\n'
    ensures var s := SafeValue(v) + [sep] + more;
      s != [] && s[0] == '"' && ReadQuoted(s[1..]) == Some((Trim(v), [sep] + more))
  {
    SafeValueShape(v);
    var s := SafeValue(v) + [sep] + more;
    assert s[1..] == Escape(Trim(v)) + "\"" + ([sep] + more);
    ReadEscaped(Trim(v), [sep] + more);
  }

  lemma ReadLineLast(v: string, tail: string)
    ensures ReadLine(SafeValue(v) + ['\n'] + tail) == Some(([Trim(v)], tail))
  {
    ReadSafeValue(v, '\n', tail);
    assert (['\n'] + tail)[1..] == tail;
  }

  lemma ReadLineNext(v: string, more: string, vs: seq<string>, after: string)
    requires ReadLine(more) == Some((vs, after))
    ensures ReadLine(SafeValue(v) + [','] + more) == Some(([Trim(v)] + vs, after))
  {
    ReadSafeValue(v, ',', more);
    assert ([','] + more)[1..] == more;
  }

  /** Regrouping a concatenation of three strings. */
  lemma Assoc(x: string, y: string, z: string)
    ensures x + y + z == x + (y + z)
  {
  }

  lemma JoinedShape(fields: seq<string>, tail: string)
    requires |fields| >= 1
    ensures |fields| == 1 ==> JoinQuoted(fields) + "\n" + tail == SafeValue(fields[0]) + ['\n'] + tail
    ensures |fields| > 1 ==>
      JoinQuoted(fields) + "\n" + tail == SafeValue(fields[0]) + [','] + (JoinQuoted(fields[1..]) + "\n" + tail)
  {
    var a := SafeValue(fields[0]);
    if |fields| > 1 {
      var b := JoinQuoted(fields[1..]);
      Assoc(a + [','] + b, "\n", tail);
      Assoc(a + [','], b, "\n" + tail);
      Assoc(b, "\n", tail);
    } else {
      Assoc(a, "\n", tail);
      Assoc(a, ['\n'], tail);
    }
  }

  lemma TrimAllFront(fields: seq<string>)
    requires |fields| >= 1
    ensures TrimAll(fields) == [Trim(fields[0])] + TrimAll(fields[1..])
    ensures |fields| == 1 ==> TrimAll(fields) == [Trim(fields[0])]
  {
    var r, rest := TrimAll(fields), TrimAll(fields[1..]);
    forall i | 0 <= i < |r| ensures r[i] == ([Trim(fields[0])] + rest)[i] {
      if i > 0 {
        assert rest[i - 1] == Trim(fields[1..][i - 1]);
      }
    }
  }

  lemma ReadJoinedLast(fields: seq<string>, tail: string)
    requires |fields| == 1
    ensures ReadLine(JoinQuoted(fields) + "\n" + tail) == Some(([Trim(fields[0])], tail))
  {
    JoinedShape(fields, tail);
    ReadLineLast(fields[0], tail);
  }

  lemma ReadJoinedNext(fields: seq<string>, tail: string, vs: seq<string>)
    requires |fields| > 1
    requires ReadLine(JoinQuoted(fields[1..]) + "\n" + tail) == Some((vs, tail))
    ensures ReadLine(JoinQuoted(fields) + "\n" + tail) == Some(([Trim(fields[0])] + vs, tail))
  {
    JoinedShape(fields, tail);
    ReadLineNext(fields[0], JoinQuoted(fields[1..]) + "\n" + tail, vs, tail);
  }

  /** A joined line reads back as the trimmed values: commas, quotes and
      newlines inside values do not split or end a field. */
  lemma {:induction false} ReadJoined(fields: seq<string>, tail: string)
    requires |fields| >= 1
    ensures ReadLine(JoinQuoted(fields) + "\n" + tail) == Some((TrimAll(fields), tail))
  {
    TrimAllFront(fields);
    if |fields| == 1 {
      ReadJoinedLast(fields, tail);
    } else {
      ReadJoined(fields[1..], tail);
      ReadJoinedNext(fields, tail, TrimAll(fields[1..]));
    }
  }

  /** The trimmed values of each record, as the export line holds them. */
  function ExportedValues(assets: seq<Asset>, render: int -> string): (r: seq<seq<string>>)
    ensures |r| == |assets|
  {
    seq(|assets|, i requires 0 <= i < |assets| => TrimAll(Fields(assets[i], render(assets[i].dateAdded))))
  }

  lemma ExportedValuesFront(assets: seq<Asset>, render: int -> string)
    requires assets != []
    ensures ExportedValues(assets, render) ==
      [TrimAll(Fields(assets[0], render(assets[0].dateAdded)))] + ExportedValues(assets[1..], render)
  {
  }

  lemma LinesFront(assets: seq<Asset>, render: int -> string)
    requires assets != []
    ensures Lines(assets, render) == [Line(assets[0], render)] + Lines(assets[1..], render)
  {
  }

  lemma ReadLinesStep(a: Asset, render: int -> string, rest: string, values: seq<seq<string>>)
    requires ReadLines(rest) == Some(values)
    ensures ReadLines(Line(a, render) + rest) == Some([TrimAll(Fields(a, render(a.dateAdded)))] + values)
  {
    ReadJoined(Fields(a, render(a.dateAdded)), rest);
    Assoc(JoinQuoted(Fields(a, render(a.dateAdded))), "\n", rest);
  }

  /** The exported lines read back, line by line, as the trimmed values of
      the records in stored order. */
  lemma {:induction false} ExportReadsBack(assets: seq<Asset>, render: int -> string)
    ensures ReadLines(Concat(Lines(assets, render))) == Some(ExportedValues(assets, render))
    decreases |assets|
  {
    if assets == [] {
      assert Lines(assets, render) == [];
      assert ExportedValues(assets, render) == [];
    } else {
      LinesFront(assets, render);
      ConcatFront(Lines(assets, render));
      ExportedValuesFront(assets, render);
      ExportReadsBack(assets[1..], render);
      ReadLinesStep(assets[0], render, Concat(Lines(assets[1..], render)), ExportedValues(assets[1..], render));
    }
  }
}
