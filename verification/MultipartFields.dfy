/** The header lines of a form as any client may write them: in any case and spacing, extended file names, other
    fields, and lines the parser refuses. */
module MultipartFields {
  import opened Text
  import opened UrlCoding
  import opened MultipartSpec
  import opened MultipartHeaders

  // ---------- spelling ----------

  /** The same letter in either case, or the same byte. */
  predicate SameLetter(a: char, b: char) {
    || a == b
    || ('a' <= a <= 'z' && b as int == a as int - 32)
    || ('a' <= b <= 'z' && a as int == b as int - 32)
  }

  /** The text begins with the pattern, in any case. */
  predicate Spells(text: string, pat: string) {
    |text| >= |pat| && forall i :: 0 <= i < |pat| ==> SameLetter(text[i], pat[i])
  }

  lemma SpellsIs(text: string, pat: string)
    ensures StartsWithIgnoreCase(text, pat) <==> Spells(text, pat)
  {
    forall a: char, b: char ensures ToLower(a) == ToLower(b) <==> SameLetter(a, b) {
    }
  }

  // ---------- what counts as a header line ----------

  /** A key in front of the first colon, and something to be seen behind it. */
  predicate KeyEndsAt(line: string, i: nat) {
    && 0 < i < |line| && line[i] == ':'
    && (forall j :: 0 <= j < i ==> line[j] != ':')
    && exists k :: i < k < |line| && !IsBlank(line[k])
  }

  predicate WellFormedLine(line: string) {
    exists i :: 0 <= i < |line| && KeyEndsAt(line, i)
  }

  lemma WellFormedExactly(line: string)
    ensures ParsesAsHeader(line) <==> WellFormedLine(line)
  {
    var end := DropBlanks(line, |line|);
    var text := line[..end];
    var colon := IndexOf(text, ':');
    if ParsesAsHeader(line) {
      var k := SkipBlanks(text, colon + 1);
      assert line[k] == text[k] && !IsBlank(text[k]);
      assert forall j :: 0 <= j < colon ==> line[j] == text[j];
      assert KeyEndsAt(line, colon);
    }
    if i :| 0 <= i < |line| && KeyEndsAt(line, i) {
      var k :| i < k < |line| && !IsBlank(line[k]);
      assert k < end;
      assert text[i] == ':' && forall j :: 0 <= j < i ==> text[j] == line[j];
      assert colon == i;
      assert !IsBlank(text[k]);
      assert SkipBlanks(text, colon + 1) <= k;
    }
  }

  // ---------- the lines ----------

  /** How a disposition line is written in front of its parameters. */
  datatype Style = Style(key: string, gap: string, form: string, behind: string)

  datatype Field =
    | Disposition(style: Style, name: string, filename: string)
    | Extended(style: Style, name: string, charset: string, filename: string)
    | Nameless(style: Style, filename: string)
    | Foreign(style: Style, name: string, value: string)
    | Type(key: string, gap: string, contentType: string)
    | Other(line: string)

  predicate Spaces(s: string) {
    forall i :: 0 <= i < |s| ==> IsSpace(s[i])
  }

  predicate Blanks(s: string) {
    forall i :: 0 <= i < |s| ==> IsBlank(s[i])
  }

  predicate Proper(style: Style) {
    && |style.key| == |DISPOSITION| && Spells(style.key, DISPOSITION) && Spaces(style.gap)
    && |style.form| == |FORM_DATA| && Spells(style.form, FORM_DATA) && Spaces(style.behind)
  }

  /** A disposition of form data: the parser reads its parameters. */
  predicate Disposes(line: string) {
    && Spells(line, DISPOSITION)
    && exists k :: |DISPOSITION| <= k <= |line| && Spaces(line[|DISPOSITION|..k]) && Spells(line[k..], FORM_DATA)
  }

  function ExtendedName(value: string): string {
    "filename*" + "=" + value
  }

  /** The parameters of a disposition. */
  function Params(h: Field): string
    requires !h.Type? && !h.Other?
    requires h.Extended? ==> IsBytes(h.filename)
  {
    match h
    case Disposition(_, name, filename) => DispositionParams(FileInfo(name, filename, ""))
    case Extended(_, name, charset, filename) =>
      Quoted("name", name) + [';'] + (" " + ExtendedName(charset + EncodeQueryParam(filename)))
    case Nameless(_, filename) => Quoted("filename", filename)
    case Foreign(_, name, value) => Quoted("name", name) + [';'] + (" " + ExtendedName(value))
  }

  function Line(h: Field): string
    requires h.Extended? ==> IsBytes(h.filename)
  {
    match h
    case Type(key, gap, contentType) => key + gap + contentType
    case Other(line) => line
    case _ => Styled(h.style, Params(h))
  }

  function Styled(style: Style, params: string): string {
    style.key + style.gap + style.form + style.behind + params
  }

  /** A line as this kind of field has it. */
  predicate Written(h: Field) {
    match h
    case Disposition(style, name, filename) => Proper(style) && Clean(name) && Clean(filename)
    case Extended(style, name, charset, filename) =>
      && Proper(style) && Clean(name)
      && |charset| == |RFC5987| && Spells(charset, RFC5987)
      && filename != "" && IsBytes(filename)
    case Nameless(style, filename) => Proper(style) && Clean(filename)
    case Foreign(style, name, value) =>
      && Proper(style) && Clean(name) && Clean(value)
      && value != "" && Trimmed(value) && value[0] != '"'
      && !(Spells(value, RFC5987) && |value| > |RFC5987|)
    case Type(key, gap, contentType) =>
      && |key| == |CONTENT_TYPE| && Spells(key, CONTENT_TYPE) && Blanks(gap)
      && contentType != "" && Trimmed(contentType)
    case Other(line) => !Spells(line, CONTENT_TYPE) && !Disposes(line)
  }

  predicate Accepted(h: Field) {
    match h
    case Nameless(_, _) => false
    case Foreign(_, _, _) => false
    case Other(line) => WellFormedLine(line)
    case _ => true
  }

  /** What the line says about the part. */
  function Meaning(h: Field, file: FileInfo): FileInfo {
    match h
    case Disposition(_, name, filename) =>
      FileInfo(name, if filename == "" then file.filename else filename, file.contentType)
    case Extended(_, name, _, filename) => FileInfo(name, filename, file.contentType)
    case Type(_, _, contentType) => FileInfo(file.name, file.filename, contentType)
    case _ => file
  }

  // ---------- disposition lines ----------

  lemma {:induction false} SkipSpacesOver(s: string, i: nat, k: nat)
    requires i <= k <= |s| && (forall j :: i <= j < k ==> IsSpace(s[j])) && (k < |s| ==> !IsSpace(s[k]))
    ensures SkipSpaces(s, i) == k
    decreases k - i
  {
    if i < k {
      SkipSpacesOver(s, i + 1, k);
    }
  }

  lemma {:induction false} SkipSpacesSkips(s: string, i: nat)
    requires i <= |s|
    ensures forall j :: i <= j < SkipSpaces(s, i) ==> IsSpace(s[j])
    decreases |s| - i
  {
    if i < |s| && IsSpace(s[i]) {
      SkipSpacesSkips(s, i + 1);
    }
  }

  /** `b` between `a` and `c`. */
  lemma Middle(a: string, b: string, c: string)
    ensures forall j :: 0 <= j < |b| ==> (a + b + c)[|a| + j] == b[j]
    ensures (a + b + c)[|a|..] == b + c && (a + b + c)[|a| + |b|..] == c
    ensures forall j :: |a| <= j < |a| + |b| ==> (a + b + c)[j] == b[j - |a|]
  {
    assert a + b + c == a + (b + c);
  }

  lemma SkipSpacesBetween(a: string, gap: string, c: string)
    requires Spaces(gap) && c != "" && !IsSpace(c[0])
    ensures SkipSpaces(a + gap + c, |a|) == |a| + |gap|
    ensures (a + gap + c)[|a| + |gap|..] == c
  {
    Middle(a, gap, c);
    assert (a + gap + c)[|a| + |gap|] == c[0];
    SkipSpacesOver(a + gap + c, |a|, |a| + |gap|);
  }

  lemma SpelledPrefix(a: string, b: string, pat: string)
    requires |a| >= |pat|
    ensures Spells(a + b, pat) <==> Spells(a, pat)
  {
    assert forall i :: 0 <= i < |pat| ==> (a + b)[i] == a[i];
  }

  lemma FormSpelled(form: string)
    requires |form| == |FORM_DATA| && Spells(form, FORM_DATA)
    ensures !IsSpace(form[0]) && !IsBlank(form[0])
  {
    assert SameLetter(form[0], FORM_DATA[0]);
  }

  lemma SpelledBehind(a: string, form: string, more: string)
    requires |form| == |FORM_DATA| && Spells(form, FORM_DATA)
    ensures Spells((a + form + more)[|a|..], FORM_DATA)
  {
    assert (a + form + more)[|a|..] == form + more;
    SpelledPrefix(form, more, FORM_DATA);
  }

  lemma StyledText(style: Style, params: string)
    requires Proper(style) && params != "" && !IsSpace(params[0]) && OneLine(params)
    ensures DispositionText(Styled(style, params)) == Some(params)
  {
    var line := Styled(style, params);
    var front, more := style.key + style.gap, style.behind + params;
    FormSpelled(style.form);
    assert (style.form + more)[0] == style.form[0];
    SkipSpacesBetween(style.key, style.gap, style.form + more);
    Associative(front, style.form, more);
    SkipSpacesBetween(front + style.form, style.behind, params);
    Associative(front + style.form, style.behind, params);
    SpelledPrefix(style.key, style.gap, DISPOSITION);
    SpelledPrefix(front, style.form + more, DISPOSITION);
    SpelledBehind(front, style.form, more);
    hide Spells, SkipSpaces, OneLine;
    SpellsIs(line, DISPOSITION);
    SpellsIs(line[|front|..], FORM_DATA);
  }

  /** Where the key of a styled line ends, a colon stands; none stands before. */
  lemma KeyColon(key: string, pat: string, more: string)
    requires |key| == |pat| && Spells(key, pat) && |pat| > 1 && pat[|pat| - 1] == ':'
    requires forall j :: 0 <= j < |pat| - 1 ==> pat[j] != ':'
    requires exists k :: 0 <= k < |more| && !IsBlank(more[k])
    ensures WellFormedLine(key + more)
  {
    var line := key + more;
    var n := |key| - 1;
    assert SameLetter(key[n], ':');
    assert line[n] == ':';
    forall j | 0 <= j < n ensures line[j] != ':' {
      assert SameLetter(key[j], pat[j]);
    }
    var k :| 0 <= k < |more| && !IsBlank(more[k]);
    assert line[|key| + k] == more[k];
    assert KeyEndsAt(line, n);
  }

  lemma StyledWellFormed(style: Style, params: string)
    requires Proper(style)
    ensures WellFormedLine(Styled(style, params)) && !Spells(Styled(style, params), CONTENT_TYPE)
  {
    var more := style.gap + style.form + style.behind + params;
    FormSpelled(style.form);
    assert more[|style.gap|] == style.form[0];
    assert Styled(style, params) == style.key + more;
    KeyColon(style.key, DISPOSITION, more);
    assert SameLetter(style.key[8], DISPOSITION[8]);
    assert (style.key + more)[8] == style.key[8] && CONTENT_TYPE[8] == 'T';
  }

  lemma StyledApplies(style: Style, params: string, file: FileInfo)
    requires Proper(style) && params != "" && !IsSpace(params[0]) && OneLine(params)
    ensures ApplyHeader(Styled(style, params), file) == ApplyDisposition(Dedup(Split(params, ';')), file)
  {
    var line := Styled(style, params);
    StyledWellFormed(style, params);
    WellFormedExactly(line);
    SpellsIs(line, CONTENT_TYPE);
    StyledText(style, params);
  }

  lemma DispositionMeans(h: Field, file: FileInfo)
    requires h.Disposition? && Written(h)
    ensures ApplyHeader(Line(h), file) == (true, Meaning(h, file))
  {
    var f := FileInfo(h.name, h.filename, "");
    assert DispositionParams(f)[0] == 'n';
    DispositionOneLine(f);
    StyledApplies(h.style, DispositionParams(f), file);
    DispositionPieces(f);
    LookupParams(f);
  }

  lemma NamelessMeans(h: Field, file: FileInfo)
    requires h.Nameless? && Written(h)
    ensures !ApplyHeader(Line(h), file).0
  {
    var text := Quoted("filename", h.filename);
    KeysShape();
    QuotedShape("filename", h.filename);
    assert text[0] == 'f';
    StyledApplies(h.style, text, file);
    SplitNone(text, ';');
    assert [text][..0] == [];
    assert Dedup([]) == [] && Dedup([text]) == [text];
    QuotedKeyValue("filename", h.filename);
    LookupFirst(text, [], "name");
    assert [text] + [] == [text];
  }

  // ---------- extended file names ----------

  lemma ExtendedKeyValue(value: string)
    requires Lacks(value, '=') && value != "" && Trimmed(value)
    ensures KeyValue(ExtendedName(value)) == Some(("filename*", value))
  {
    assert ExtendedName(value) == "filename*" + ['='] + value;
    SplitAtFirst("filename*", '=', value);
    SplitNone(value, '=');
    assert Trimmed("filename*");
    TrimOfTrimmed("filename*");
    TrimOfTrimmed(value);
  }

  lemma ExtendedPieces(name: string, value: string)
    requires Clean(name) && Clean(value) && value != "" && Trimmed(value)
    ensures var text := Quoted("name", name) + [';'] + (" " + ExtendedName(value));
            && OneLine(text)
            && text[0] == 'n'
            && Dedup(Split(text, ';')) == [Quoted("name", name), ExtendedName(value)]
  {
    var a, b := Quoted("name", name), ExtendedName(value);
    KeysShape();
    QuotedShape("name", name);
    assert a[0] == 'n' && b[0] == 'f' && b[|b| - 1] == value[|value| - 1];
    assert Lacks(b, ';') && OneLine(b);
    SplitTwo(a, b, ';');
    DedupTwo(a, b);
  }

  lemma ExtendedLookup(name: string, value: string)
    requires Clean(name) && Clean(value) && value != "" && Trimmed(value) && value[0] != '"'
    ensures var pieces := [Quoted("name", name), ExtendedName(value)];
            && Lookup(pieces, "name") == Some(name)
            && Lookup(pieces, "filename") == None
            && Lookup(pieces, "filename*") == Some(value)
  {
    var a, b := Quoted("name", name), ExtendedName(value);
    KeysShape();
    QuotedKeyValue("name", name);
    TrimQuotesOf(name);
    ExtendedKeyValue(value);
    assert TrimQuotes("filename*") == "filename*" && TrimQuotes(value) == value;
    assert [a, b] == [a] + [b] && [b] == [b] + [];
    LookupFirst(a, [b], "name");
    LookupFirst(a, [b], "filename");
    LookupFirst(a, [b], "filename*");
    LookupFirst(b, [], "filename");
    LookupFirst(b, [], "filename*");
  }

  lemma ForeignMeans(h: Field, file: FileInfo)
    requires h.Foreign? && Written(h)
    ensures !ApplyHeader(Line(h), file).0
  {
    ExtendedPieces(h.name, h.value);
    StyledApplies(h.style, Params(h), file);
    ExtendedLookup(h.name, h.value);
    SpellsIs(h.value, RFC5987);
  }

  /** No byte with a meaning in a parameter list, and no blank. */
  predicate Plain(s: string) {
    Clean(s) && forall i :: 0 <= i < |s| ==> !IsBlank(s[i])
  }

  lemma PlainTogether(a: string, b: string)
    requires Plain(a) && Plain(b)
    ensures Plain(a + b) && Trimmed(a + b)
  {
  }

  lemma CharsetPlain(charset: string)
    requires |charset| == |RFC5987| && Spells(charset, RFC5987)
    ensures Plain(charset) && charset[0] != '"'
  {
    assert RFC5987 == ['U', 'T', 'F', '-', '8', '\'', '\''];
    assert forall i :: 0 <= i < |RFC5987| ==> SameLetter(charset[i], RFC5987[i]);
  }

  lemma EncodedPlain(s: string)
    requires IsBytes(s) && s != ""
    ensures Plain(EncodeQueryParam(s)) && EncodeQueryParam(s) != ""
  {
    EncodedAlphabet(s, 0);
    EncodeStep(s, 0);
  }

  lemma EncodedShape(charset: string, filename: string)
    requires |charset| == |RFC5987| && Spells(charset, RFC5987) && filename != "" && IsBytes(filename)
    ensures var value := charset + EncodeQueryParam(filename);
            && Clean(value) && Trimmed(value) && value[0] != '"' && |value| > |RFC5987|
            && Spells(value, RFC5987) && value[|RFC5987|..] == EncodeQueryParam(filename)
  {
    var e := EncodeQueryParam(filename);
    CharsetPlain(charset);
    EncodedPlain(filename);
    SpelledPrefix(charset, e, RFC5987);
    hide Spells, EncodeQueryParam;
    PlainTogether(charset, e);
    assert (charset + e)[|RFC5987|..] == e;
  }

  lemma ExtendedMeans(h: Field, file: FileInfo)
    requires h.Extended? && Written(h)
    ensures ApplyHeader(Line(h), file) == (true, Meaning(h, file))
  {
    var value := h.charset + EncodeQueryParam(h.filename);
    EncodedShape(h.charset, h.filename);
    ExtendedPieces(h.name, value);
    StyledApplies(h.style, Params(h), file);
    ExtendedLookup(h.name, value);
    SpellsIs(value, RFC5987);
    DecodeEncode(h.filename, false);
  }

  // ---------- the other lines ----------

  lemma TypeMeans(h: Field, file: FileInfo)
    requires h.Type? && Written(h)
    ensures ApplyHeader(Line(h), file) == (true, Meaning(h, file))
  {
    var line, more := Line(h), h.gap + h.contentType;
    assert line == h.key + more;
    assert more[|h.gap|] == h.contentType[0];
    KeyColon(h.key, CONTENT_TYPE, more);
    WellFormedExactly(line);
    SpelledPrefix(h.key, more, CONTENT_TYPE);
    SpellsIs(line, CONTENT_TYPE);
    assert line[|CONTENT_TYPE|..] == more;
    TrimPadded(h.gap, h.contentType);
  }

  lemma TextDisposes(line: string)
    requires DispositionText(line).Some?
    ensures Disposes(line)
  {
    SpellsIs(line, DISPOSITION);
    var k := SkipSpaces(line, |DISPOSITION|);
    SkipSpacesSkips(line, |DISPOSITION|);
    SpellsIs(line[k..], FORM_DATA);
    assert Spaces(line[|DISPOSITION|..k]);
  }

  lemma OtherMeans(h: Field, file: FileInfo)
    requires h.Other? && Written(h)
    ensures ApplyHeader(Line(h), file) == (WellFormedLine(h.line), file)
  {
    WellFormedExactly(h.line);
    SpellsIs(h.line, CONTENT_TYPE);
    if DispositionText(h.line).Some? {
      TextDisposes(h.line);
    }
  }

  /** What the parser makes of a line is what the line says, and it refuses exactly the lines that are not
      acceptable. */
  lemma FieldApplies(h: Field, file: FileInfo)
    requires Written(h)
    ensures ApplyHeader(Line(h), file).0 == Accepted(h)
    ensures Accepted(h) ==> ApplyHeader(Line(h), file).1 == Meaning(h, file)
  {
    match h
    case Disposition(_, _, _) => DispositionMeans(h, file);
    case Extended(_, _, _, _) => ExtendedMeans(h, file);
    case Nameless(_, _) => NamelessMeans(h, file);
    case Foreign(_, _, _) => ForeignMeans(h, file);
    case Type(_, _, _) => TypeMeans(h, file);
    case Other(_) => OtherMeans(h, file);
  }
}
