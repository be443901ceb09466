/** The header block the serializer writes for an item, and what the parser makes of its lines. */
module MultipartHeaders {
  import opened Text
  import opened MultipartSpec

  function Quoted(key: string, value: string): string {
    key + "=\"" + value + "\""
  }

  function DispositionParams(f: FileInfo): string {
    Quoted("name", f.name) + if f.filename != "" then "; " + Quoted("filename", f.filename) else ""
  }

  function DispositionLine(f: FileInfo): string {
    DISPOSITION + " " + FORM_DATA + " " + DispositionParams(f)
  }

  function TypeLine(f: FileInfo): string {
    CONTENT_TYPE + " " + f.contentType
  }

  /** The optional type line and the blank line. */
  function TypePart(f: FileInfo): string {
    (if f.contentType != "" then TypeLine(f) + CRLF else "") + CRLF
  }

  function HeaderBlock(f: FileInfo): string {
    DispositionLine(f) + CRLF + TypePart(f)
  }

  /** Names that survive: no byte with a meaning in the parameter list or at the end of a line.
      A double quote is harmless. */
  predicate Clean(s: string) {
    Lacks(s, ';') && Lacks(s, '=') && OneLine(s)
  }

  // ---------- parameters ----------

  lemma QuotedShape(key: string, value: string)
    requires Clean(key) && Trimmed(key) && key != "" && Clean(value)
    ensures Trimmed(Quoted(key, value)) && Lacks(Quoted(key, value), ';') && OneLine(Quoted(key, value))
    ensures Quoted(key, value) != "" && Piece(Quoted(key, value)) == [Quoted(key, value)]
  {
    TrimOfTrimmed(Quoted(key, value));
  }

  lemma TrimQuotesOf(value: string)
    ensures TrimQuotes("\"" + value + "\"") == value
  {
    var v := "\"" + value + "\"";
    assert v[1..|v| - 1] == value;
  }

  lemma QuotedKeyValue(key: string, value: string)
    requires Clean(key) && Trimmed(key) && key != "" && Clean(value)
    ensures KeyValue(Quoted(key, value)) == Some((key, "\"" + value + "\""))
  {
    var v := "\"" + value + "\"";
    assert Quoted(key, value) == key + ['='] + v;
    SplitAtFirst(key, '=', v);
    SplitNone(v, '=');
    TrimOfTrimmed(key);
    TrimOfTrimmed(v);
  }

  lemma KeysShape()
    ensures Clean("name") && Trimmed("name") && Clean("filename") && Trimmed("filename")
    ensures TrimQuotes("name") == "name" && TrimQuotes("filename") == "filename"
    ensures "name" != "filename" && "name" != "filename*" && "filename" != "filename*"
  {
  }

  function ParamPieces(f: FileInfo): seq<string> {
    [Quoted("name", f.name)] + if f.filename != "" then [Quoted("filename", f.filename)] else []
  }

  lemma DispositionOneLine(f: FileInfo)
    requires Clean(f.name) && Clean(f.filename)
    ensures OneLine(DispositionParams(f))
  {
    KeysShape();
    QuotedShape("name", f.name);
    QuotedShape("filename", f.filename);
  }

  lemma DispositionSplit(f: FileInfo)
    requires Clean(f.name) && Clean(f.filename)
    ensures Split(DispositionParams(f), ';') == ParamPieces(f)
  {
    KeysShape();
    hide Quoted, Split, SplitFrom, Clean, OneLine;
    var a, b := Quoted("name", f.name), Quoted("filename", f.filename);
    QuotedShape("name", f.name);
    QuotedShape("filename", f.filename);
    if f.filename == "" {
      assert a + "" == a;
      SplitNone(a, ';');
    } else {
      assert a + ("; " + b) == a + [';'] + (" " + b);
      SplitTwo(a, b, ';');
    }
  }

  /** Two pieces with a blank behind the separator. */
  lemma SplitTwo(a: string, b: string, d: char)
    requires Lacks(a, d) && Lacks(b, d) && d != ' ' && Piece(a) == [a] && Trimmed(b) && b != ""
    ensures Split(a + [d] + (" " + b), d) == [a, b]
  {
    SplitAtFirst(a, d, " " + b);
    SplitNone(" " + b, d);
    TrimPadded(" ", b);
  }

  lemma DedupTwo(a: string, b: string)
    requires a != b
    ensures Dedup([a]) == [a] && Dedup([a, b]) == [a, b]
  {
    assert [a, b][..1] == [a];
    assert Dedup([a]) == [a];
  }

  lemma DispositionPieces(f: FileInfo)
    requires Clean(f.name) && Clean(f.filename)
    ensures Dedup(Split(DispositionParams(f), ';')) == ParamPieces(f)
  {
    DispositionSplit(f);
    var a, b := Quoted("name", f.name), Quoted("filename", f.filename);
    assert a[0] == 'n' && b[0] == 'f';
    DedupTwo(a, b);
  }

  lemma LookupFirst(kv: string, more: seq<string>, key: string)
    requires KeyValue(kv).Some?
    ensures Lookup([kv] + more, key) ==
            if TrimQuotes(KeyValue(kv).value.0) == key then Some(TrimQuotes(KeyValue(kv).value.1))
            else Lookup(more, key)
  {
    assert ([kv] + more)[1..] == more;
  }

  lemma LookupParams(f: FileInfo)
    requires Clean(f.name) && Clean(f.filename)
    ensures Lookup(ParamPieces(f), "name") == Some(f.name)
    ensures Lookup(ParamPieces(f), "filename") == if f.filename != "" then Some(f.filename) else None
    ensures Lookup(ParamPieces(f), "filename*") == None
  {
    KeysShape();
    var a, b := Quoted("name", f.name), Quoted("filename", f.filename);
    var more := if f.filename != "" then [b] else [];
    QuotedKeyValue("name", f.name);
    QuotedKeyValue("filename", f.filename);
    TrimQuotesOf(f.name);
    TrimQuotesOf(f.filename);
    LookupFirst(a, more, "name");
    LookupFirst(a, more, "filename");
    LookupFirst(a, more, "filename*");
    LookupFirst(b, [], "filename");
    LookupFirst(b, [], "filename*");
    assert [b] + [] == [b];
  }

  // ---------- the two header lines ----------

  lemma DispositionTextOf(text: string)
    requires text != "" && !IsSpace(text[0])
    ensures DispositionText(DISPOSITION + " " + FORM_DATA + " " + text) == if OneLine(text) then Some(text) else None
  {
    var line := DISPOSITION + " " + FORM_DATA + " " + text;
    assert line[|DISPOSITION|] == ' ' && line[|DISPOSITION| + 1] == 'f';
    var i := |DISPOSITION| + 1;
    assert SkipSpaces(line, |DISPOSITION|) == i;
    assert line[i..] == FORM_DATA + " " + text;
    assert line[i + |FORM_DATA|] == ' ' && line[i + |FORM_DATA| + 1] == text[0];
    assert SkipSpaces(line, i + |FORM_DATA|) == i + |FORM_DATA| + 1;
    assert line[i + |FORM_DATA| + 1..] == text;
  }

  /** A line `key: value` with a non-blank value is accepted as a header. */
  lemma HeaderAccepted(key: string, value: string)
    requires key != "" && Lacks(key, ':') && value != "" && Trimmed(value)
    ensures ParsesAsHeader(key + ": " + value)
  {
    var line := key + ": " + value;
    assert line[|line| - 1] == value[|value| - 1];
    DropBlanksIs(line, |line|, |line|);
    assert line[..|line|] == line;
    assert line == key + [':'] + (" " + value);
    IndexOfAppend(key, ':', " " + value);
    assert line[|key| + 2] == value[0];
    SkipBlanksIs(line, |key| + 1, |key| + 2);
  }

  lemma DispositionIsNotType(rest: string)
    ensures !StartsWithIgnoreCase("Content-Disposition" + rest, CONTENT_TYPE)
  {
    assert ("Content-Disposition" + rest)[8] == 'D' && CONTENT_TYPE[8] == 'T';
  }

  lemma DispositionAccepted(f: FileInfo)
    ensures ParsesAsHeader(DispositionLine(f)) && !StartsWithIgnoreCase(DispositionLine(f), CONTENT_TYPE)
  {
    var text := DispositionParams(f);
    assert text[|text| - 1] == '"';
    assert DispositionLine(f) == "Content-Disposition" + (": " + (FORM_DATA + " " + text));
    assert DispositionLine(f) == "Content-Disposition" + ": " + (FORM_DATA + " " + text);
    HeaderAccepted("Content-Disposition", FORM_DATA + " " + text);
    DispositionIsNotType(": " + (FORM_DATA + " " + text));
  }

  lemma DispositionApplies(f: FileInfo)
    requires Clean(f.name) && Clean(f.filename)
    ensures ApplyHeader(DispositionLine(f), NO_FILE) == (true, FileInfo(f.name, f.filename, ""))
  {
    assert DispositionParams(f)[0] == 'n';
    DispositionAccepted(f);
    DispositionOneLine(f);
    DispositionPieces(f);
    DispositionTextOf(DispositionParams(f));
    LookupParams(f);
  }

  lemma TypeApplies(f: FileInfo, before: FileInfo)
    requires f.contentType != "" && Trimmed(f.contentType)
    ensures ApplyHeader(TypeLine(f), before) == (true, before.(contentType := f.contentType))
  {
    var line := TypeLine(f);
    assert line == "Content-Type" + ": " + f.contentType;
    HeaderAccepted("Content-Type", f.contentType);
    hide ParsesAsHeader, TrimCopy, Trimmed;
    assert line[|CONTENT_TYPE|..] == " " + f.contentType;
    TrimPadded(" ", f.contentType);
  }
}
