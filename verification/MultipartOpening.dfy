/** What the cut of the input into chunks can spoil: a form comes back if and only if its opening line is whole. */
module MultipartOpening {
  import opened Text
  import opened MultipartSpec
  import opened MultipartChunks
  import opened MultipartHeaders
  import opened MultipartRoundTrip
  import opened MultipartLimits
  import opened MultipartNames

  // ---------- line ends in the text of a form ----------

  predicate CrlfAt(s: string, i: int) {
    0 <= i && i + 2 <= |s| && s[i] == '\r' && s[i + 1] == '\n'
  }

  lemma OccursCrlf(s: string, pat: string, i: nat, j: nat)
    requires OccursAt(s, pat, i) && CrlfAt(pat, j)
    ensures CrlfAt(s, i + j)
  {
    assert s[i..i + |pat|][j] == s[i + j] && s[i..i + |pat|][j + 1] == s[i + j + 1];
  }

  /** A blank line, and so a header block, ends at `b`. */
  predicate BlankEnds(s: string, b: int) {
    CrlfAt(s, b - 4) && CrlfAt(s, b - 2)
  }

  /** Where lines end in a header block. */
  predicate LineEnd(f: FileInfo, i: nat) {
    || i == |DispositionLine(f)|
    || i == |HeaderBlock(f)| - 2
    || (f.contentType != "" && i == |HeaderBlock(f)| - 4)
  }

  ghost predicate Plain(f: FileInfo) {
    Clean(f.name) && Clean(f.filename) && !Contains(f.contentType, CRLF)
  }

  lemma NoCrlfAt(s: string, i: int)
    requires !Contains(s, CRLF)
    ensures !CrlfAt(s, i)
  {
    if CrlfAt(s, i) {
      assert s[i..i + 2] == CRLF;
      assert OccursAt(s, CRLF, i);
    }
  }

  /** A line end in `a + CRLF + b`, where `a` has none, is the one between them or in `b`. */
  lemma BetweenLines(a: string, b: string, i: nat)
    requires !Contains(a, CRLF) && CrlfAt(a + CRLF + b, i)
    ensures i == |a| || (i >= |a| + 2 && CrlfAt(b, i - |a| - 2))
  {
    var s := a + CRLF + b;
    NoCrlfAt(a, i);
    assert s[|a|] == '\r' && s[|a| + 1] == '\n';
    assert forall k :: 0 <= k < |a| ==> s[k] == a[k];
    assert forall k :: 0 <= k < |b| ==> s[|a| + 2 + k] == b[k];
  }

  lemma BlockEnds(f: FileInfo, v: string, i: nat)
    requires Plain(f) && CrlfAt(HeaderBlock(f) + v, i) && i < |HeaderBlock(f)|
    ensures LineEnd(f, i)
  {
    var line, rest := DispositionLine(f), TypePart(f) + v;
    DispositionLineOneLine(f);
    OneLineNoCrlf(line);
    RegroupBlock(line, CRLF, TypePart(f), v);
    BetweenLines(line, rest, i);
    if i != |line| {
      var j := i - |line| - 2;
      if f.contentType == "" {
        assert rest == CRLF + v;
        assert rest[1] == '\n';
      } else {
        assert rest == TypeLine(f) + CRLF + (CRLF + v);
        TypeLineNoCrlf(f);
        BetweenLines(TypeLine(f), CRLF + v, j);
      }
    }
  }

  // ---------- delimiters in the text of a form ----------

  /** No delimiter begins inside another one, or inside text that contains none. */
  lemma DelimiterApart(c: string, r: string, boundary: string, i: nat)
    requires ValidBoundary(boundary) && !Contains(c, Delimiter(boundary))
    requires OccursAt(c + Delimiter(boundary) + r, Delimiter(boundary), i)
    ensures i == |c|
            || (i >= |c| + |Delimiter(boundary)|
                && OccursAt(r, Delimiter(boundary), i - |c| - |Delimiter(boundary)|))
  {
    var delim := Delimiter(boundary);
    var s := c + delim + r;
    DelimiterHasNoBorder(boundary);
    FindAfter(c, delim, r);
    if i > |c| {
      NotInside(s, delim, |c|, i);
      var n := |c| + |delim|;
      assert s[n..] == r;
      OccursDrop(s, delim, n, i);
    }
  }

  lemma NotInside(s: string, pat: string, at: nat, i: nat)
    requires OccursAt(s, pat, at) && OccursAt(s, pat, i) && at < i && pat != ""
    requires forall j :: 0 < j < |pat| ==> pat[j] != pat[0]
    ensures i >= at + |pat|
  {
    if i < at + |pat| {
      OccursByte(s, pat, at, i - at);
    }
    OccursByte(s, pat, i, 0);
  }

  lemma OccursByte(s: string, pat: string, i: nat, j: nat)
    requires OccursAt(s, pat, i) && j < |pat|
    ensures s[i + j] == pat[j]
  {
    assert s[i..i + |pat|][j] == s[i + j];
  }

  /** Where the file name begins in a header block. */
  function NameOffset(f: FileInfo): int {
    |HeaderBlock(f)| - |TypePart(f)| - 3 - |f.filename|
  }

  /** Between two contents a delimiter can only begin with the blank line, or in a file name with a reserved byte. */
  lemma DelimiterInHead(f: FileInfo, v: string, boundary: string, i: nat)
    requires FileSound(f) && OccursAt(CRLF + (HeaderBlock(f) + v), Delimiter(boundary), i)
    ensures i >= |HeaderBlock(f)| || (!Clean(f.filename) && i >= 2 + NameOffset(f))
  {
    if Clean(f.filename) {
      DelimiterInPlain(f, v, boundary, i);
    } else {
      OpeningStarts(f, v);
      DelimiterStarts(boundary);
      hide HeaderBlock, Delimiter, OccursAt, NameOffset, Clean;
      OccursByte(CRLF + (HeaderBlock(f) + v), Delimiter(boundary), i, 2);
      OccursCrlf(CRLF + (HeaderBlock(f) + v), Delimiter(boundary), i, 0);
      if i >= 2 {
        CrlfLater(CRLF, HeaderBlock(f) + v, i);
        BehindTheName(f, v, i - 2);
      }
    }
  }

  lemma DelimiterStarts(boundary: string)
    ensures var delim := Delimiter(boundary); |delim| >= 4 && CrlfAt(delim, 0) && delim[2] == '-'
  {
  }

  lemma OpeningStarts(f: FileInfo, v: string)
    ensures HeaderBlock(f) != "" && (HeaderBlock(f) + v)[0] == 'C'
  {
    assert HeaderBlock(f)[0] == 'C';
  }

  /** No line ends in front of the file name. */
  lemma BehindTheName(f: FileInfo, v: string, i: nat)
    requires FileSound(f) && !Clean(f.filename) && CrlfAt(HeaderBlock(f) + v, i)
    ensures i >= NameOffset(f) == |Opening(f.name)|
  {
    BlockShape(f, v);
    OpeningOneLine(f.name);
    NameOffsetIs(f);
    var pre, inner := Opening(f.name), f.filename + "\"" + CRLF + (TypePart(f) + v);
    assert forall k :: 0 <= k < |pre| ==> (pre + inner)[k] == pre[k];
  }

  lemma NameOffsetIs(f: FileInfo)
    requires f.filename != ""
    ensures NameOffset(f) == |Opening(f.name)|
  {
    BlockShape(f, "");
    assert |HeaderBlock(f) + ""| == |Opening(f.name)| + |f.filename| + 3 + |TypePart(f)|;
  }

  /** Behind a line end in a block with such a name the block is still being read, or it is over. */
  lemma LineEndReading(f: FileInfo, v: string, i: nat)
    requires Hazardous(f) && CrlfAt(HeaderBlock(f) + v, i) && i < |HeaderBlock(f)|
    ensures i + 2 == |HeaderBlock(f)| || Reading(NO_FILE, (HeaderBlock(f) + v)[i + 2..], f, v)
  {
    BehindTheName(f, v, i);
    hide HeaderBlock, TypePart, Opening, Reading, NameOffset, Hazardous, CrlfAt, InName;
    var inner := BlockInner(f, v);
    CrlfLater(Opening(f.name), inner, i);
    InnerLineEnd(inner, f, v, i - |Opening(f.name)|);
  }

  lemma BlockInner(f: FileInfo, v: string) returns (inner: string)
    requires Hazardous(f)
    ensures HeaderBlock(f) + v == Opening(f.name) + inner && InName(inner, f.filename, TypePart(f) + v)
    ensures |HeaderBlock(f)| == |Opening(f.name)| + |f.filename| + 3 + |TypePart(f)|
  {
    inner := f.filename + "\"" + CRLF + (TypePart(f) + v);
    BlockShape(f, v);
    NameOffsetIs(f);
  }

  lemma CrlfLater(a: string, b: string, i: nat)
    requires CrlfAt(a + b, i) && i >= |a|
    ensures CrlfAt(b, i - |a|) && (a + b)[i + 2..] == b[i - |a| + 2..]
  {
    assert (a + b)[i] == b[i - |a|] && (a + b)[i + 1] == b[i + 1 - |a|];
  }

  /** A line end inside a name, behind the quote that closes it, or later. */
  lemma QuotedLineEnd(inner: string, n: string, y: string, j: nat)
    requires InName(inner, n, y) && CrlfAt(inner, j)
    ensures var left := inner[j + 2..];
            || (j + 2 <= |n| && InName(left, n[j + 2..], y))
            || (j == |n| + 1 && left == y)
            || (j >= |n| + 3 && CrlfAt(y, j - |n| - 3) && left == y[j - |n| - 1..])
  {
    var a := n + "\"" + CRLF;
    assert a[|n|] == '"' && a[|n| + 1] == '\r' && a[|n| + 2] == '\n';
    assert forall k :: 0 <= k < |a| ==> inner[k] == a[k];
    if j >= |a| {
      CrlfLater(a, y, j);
    } else if j < |n| {
      assert a == n[..j + 2] + (n[j + 2..] + "\"" + CRLF);
    }
  }

  lemma InnerLineEnd(inner: string, f: FileInfo, v: string, j: nat)
    requires Hazardous(f) && InName(inner, f.filename, TypePart(f) + v)
    requires CrlfAt(inner, j) && j < |f.filename| + 3 + |TypePart(f)|
    ensures j + 2 == |f.filename| + 3 + |TypePart(f)| || Reading(NO_FILE, inner[j + 2..], f, v)
  {
    assert j + 2 <= |inner|;
    hide Reading, TypePart, Hazardous, InName, CrlfAt;
    var n := f.filename;
    QuotedLineEnd(inner, n, TypePart(f) + v, j);
    ReadingInside(f, v, inner[j + 2..]);
    if j >= |n| + 3 {
      TypeLineEnd(f, v, j - |n| - 3);
    }
  }

  /** Wherever a header block is taken up behind a line end, no file name has been read yet. */
  lemma ReadingInside(f: FileInfo, x: string, left: string)
    ensures (exists r :: InName(left, r, TypePart(f) + x) && |r| <= |f.filename|) ==> Reading(NO_FILE, left, f, x)
    ensures left == TypePart(f) + x || left == CRLF + x ==> Reading(NO_FILE, left, f, x)
  {
    assert Short(NO_FILE.filename, f.filename);
    hide TypePart, HeaderBlock, InName, Short;
  }

  lemma TypeLineEnd(f: FileInfo, v: string, j: nat)
    requires Hazardous(f) && CrlfAt(TypePart(f) + v, j) && j < |TypePart(f)|
    ensures j + 2 == |TypePart(f)| || (TypePart(f) + v)[j + 2..] == CRLF + v
  {
    var y := TypePart(f) + v;
    if f.contentType == "" {
      assert y == CRLF + v && y[1] == '\n';
    } else {
      assert y == TypeLine(f) + CRLF + (CRLF + v);
      TypeLineNoCrlf(f);
      BetweenLines(TypeLine(f), CRLF + v, j);
      assert (CRLF + v)[1] == '\n';
    }
  }

  lemma DelimiterInPlain(f: FileInfo, v: string, boundary: string, i: nat)
    requires Plain(f) && OccursAt(CRLF + (HeaderBlock(f) + v), Delimiter(boundary), i)
    ensures i >= |HeaderBlock(f)|
  {
    var h := HeaderBlock(f) + v;
    var s, delim := CRLF + h, Delimiter(boundary);
    assert s[i..i + |delim|][2] == s[i + 2] == delim[2] == '-';
    assert CrlfAt(delim, 0);
    OccursCrlf(s, delim, i, 0);
    if 2 <= i < |HeaderBlock(f)| {
      assert CrlfAt(h, i - 2);
      BlockEnds(f, v, i - 2);
      AfterLineEnd(f, v, i - 2);
    }
  }

  lemma AfterLineEnd(f: FileInfo, v: string, i: nat)
    requires LineEnd(f, i) && i + 2 < |HeaderBlock(f)|
    ensures (HeaderBlock(f) + v)[i + 2] != '-'
  {
    var h := HeaderBlock(f);
    assert (h + v)[i + 2] == h[i + 2];
    if i == |h| - 4 {
      assert h[i + 2] == '\r';
    } else {
      assert h[i + 2] == TypePart(f)[0];
    }
  }

  // ---------- where the contents of a form are ----------

  /** The text from the content of item `i` on. */
  function FromContent(items: seq<Part>, i: nat, boundary: string): string
    requires i < |items|
  {
    items[i].content + Delimiter(boundary) + (After(items, i, boundary) + CRLF)
  }

  /** Where the content of item `i` begins. */
  function ContentAt(items: seq<Part>, i: nat, boundary: string): nat
    requires i < |items|
    decreases i, 0
  {
    if i == 0 then |OpeningLine(boundary)| + |HeaderBlock(items[0].file)|
    else DelimiterAt(items, i - 1, boundary) + |Delimiter(boundary)| + 2 + |HeaderBlock(items[i].file)|
  }

  /** Where the delimiter behind it begins. */
  function DelimiterAt(items: seq<Part>, i: nat, boundary: string): nat
    requires i < |items|
    decreases i, 1
  {
    ContentAt(items, i, boundary) + |items[i].content|
  }

  lemma RegroupEntry(h: string, c: string, d: string, a: string, n: string)
    ensures h + (c + d + a) + n == h + (c + d + (a + n))
  {
    assert c + d + a + n == c + d + (a + n);
    assert h + (c + d + a) + n == h + (c + d + a + n);
  }

  /** An entry and the line end behind everything. */
  lemma TailText(items: seq<Part>, i: nat, boundary: string)
    requires i < |items|
    ensures Tail(items, i, boundary) + CRLF == HeaderBlock(items[i].file) + FromContent(items, i, boundary)
  {
    RegroupEntry(HeaderBlock(items[i].file), items[i].content, Delimiter(boundary), After(items, i, boundary), CRLF);
  }

  lemma AfterText(items: seq<Part>, i: nat, boundary: string)
    requires i < |items|
    ensures After(items, i, boundary) + CRLF ==
            if i + 1 == |items| then DASH + CRLF
            else CRLF + (HeaderBlock(items[i + 1].file) + FromContent(items, i + 1, boundary))
  {
    if i + 1 < |items| {
      TailText(items, i + 1, boundary);
      Associative(CRLF, Tail(items, i + 1, boundary), CRLF);
    }
  }

  lemma CutTwo(s: string, at: nat, a: string, b: string, c: string)
    requires at <= |s| && s[at..] == a + b + c
    ensures at + |a| + |b| <= |s| && s[at + |a| + |b|..] == c
  {
    Associative(a, b, c);
    CutPrefix(s, at, a, b + c);
    CutPrefix(s, at + |a|, b, c);
  }

  lemma CutFour(s: string, at: nat, a: string, b: string, n: string, h: string, v: string)
    requires at <= |s| && s[at..] == a + b + (n + (h + v))
    ensures at + |a| + |b| + |n| + |h| <= |s| && s[at + |a| + |b| + |n| + |h|..] == v
  {
    CutTwo(s, at, a, b, n + (h + v));
    Associative(n, h, v);
    CutTwo(s, at + |a| + |b|, n, h, v);
  }

  lemma {:induction false} ContentIs(items: seq<Part>, i: nat, boundary: string)
    requires i < |items|
    ensures var w := Serialize(items, boundary);
            ContentAt(items, i, boundary) <= |w|
              && w[ContentAt(items, i, boundary)..] == FromContent(items, i, boundary)
  {
    hide Serialize, FromContent, HeaderBlock, Delimiter;
    if i == 0 {
      ContentFirst(items, boundary);
    } else {
      ContentIs(items, i - 1, boundary);
      ContentNext(Serialize(items, boundary), items, i, boundary);
    }
  }

  lemma ContentFirst(items: seq<Part>, boundary: string)
    requires items != []
    ensures var w := Serialize(items, boundary);
            ContentAt(items, 0, boundary) <= |w|
              && w[ContentAt(items, 0, boundary)..] == FromContent(items, 0, boundary)
  {
    var w := Serialize(items, boundary);
    var open, h, v := OpeningLine(boundary), HeaderBlock(items[0].file), FromContent(items, 0, boundary);
    SerializeTail(items, 0, boundary);
    TailText(items, 0, boundary);
    assert w == open + Tail(items, 0, boundary) + CRLF;
    hide Serialize, FromContent, HeaderBlock, Tail, OpeningLine;
    Associative(open, Tail(items, 0, boundary), CRLF);
    Associative(open, h, v);
    assert w[0..] == w;
    CutTwo(w, 0, open, h, v);
  }

  lemma ContentNext(w: string, items: seq<Part>, i: nat, boundary: string)
    requires 0 < i < |items| && ContentAt(items, i - 1, boundary) <= |w|
    requires w[ContentAt(items, i - 1, boundary)..] == FromContent(items, i - 1, boundary)
    ensures ContentAt(items, i, boundary) <= |w|
      && w[ContentAt(items, i, boundary)..] == FromContent(items, i, boundary)
  {
    var h, v := HeaderBlock(items[i].file), FromContent(items, i, boundary);
    AfterText(items, i - 1, boundary);
    assert FromContent(items, i - 1, boundary) == items[i - 1].content + Delimiter(boundary) + (CRLF + (h + v));
    hide FromContent, HeaderBlock, Delimiter;
    CutFour(w, ContentAt(items, i - 1, boundary), items[i - 1].content, Delimiter(boundary), CRLF, h, v);
  }

  /** `pos` is in or behind the file name of item `k`, which has a reserved byte. */
  predicate Past(items: seq<Part>, k: nat, pos: nat, boundary: string)
    requires k < |items|
  {
    var f := items[k].file;
    !Clean(f.filename) && pos >= ContentAt(items, k, boundary) - |HeaderBlock(f)| + NameOffset(f)
  }

  lemma NoneInClosing(boundary: string, i: nat)
    ensures !OccursAt(DASH + CRLF, Delimiter(boundary), i)
  {
    var s, delim := DASH + CRLF, Delimiter(boundary);
    assert i == 0 && |delim| <= |s| ==> s[0..|delim|][0] == s[0];
  }

  /** Behind the start of content `k` no delimiter begins before its own, and behind that none before the blank
      line of the next item, if there is one, unless in a file name with a reserved byte. */
  lemma DelimitersAre(items: seq<Part>, k: nat, i: nat, boundary: string)
    requires ValidBoundary(boundary) && AllSealed(items, Delimiter(boundary)) && k < |items|
    requires OccursAt(Serialize(items, boundary), Delimiter(boundary), i) && i >= ContentAt(items, k, boundary)
    ensures i >= DelimiterAt(items, k, boundary)
    ensures i > DelimiterAt(items, k, boundary) ==>
              k + 1 < |items| && (i + 2 >= ContentAt(items, k + 1, boundary) || Past(items, k + 1, i, boundary))
  {
    DelimiterDrop(items, k, i, boundary);
    assert Sealed(items[k], Delimiter(boundary));
    hide Serialize, Delimiter, OccursAt, NameOffset, Clean, FromContent, HeaderBlock, After, Past, ContentAt;
    var j := i - ContentAt(items, k, boundary);
    DelimiterApart(items[k].content, After(items, k, boundary) + CRLF, boundary, j);
    if j > |items[k].content| {
      DelimiterLater(items, k, j - |items[k].content| - |Delimiter(boundary)|, boundary);
      DelimiterPast(items, k, i, boundary);
    }
  }

  lemma DelimiterDrop(items: seq<Part>, k: nat, i: nat, boundary: string)
    requires k < |items| && OccursAt(Serialize(items, boundary), Delimiter(boundary), i)
    requires i >= ContentAt(items, k, boundary)
    ensures OccursAt(items[k].content + Delimiter(boundary) + (After(items, k, boundary) + CRLF), Delimiter(boundary),
                     i - ContentAt(items, k, boundary))
  {
    hide Serialize, Delimiter, OccursAt, After, ContentAt;
    ContentIs(items, k, boundary);
    OccursDrop(Serialize(items, boundary), Delimiter(boundary), ContentAt(items, k, boundary), i);
  }

  /** The same by position in the whole text. */
  lemma DelimiterPast(items: seq<Part>, k: nat, i: nat, boundary: string)
    requires k + 1 < |items|
    requires var f, j := items[k + 1].file, i - DelimiterAt(items, k, boundary) - |Delimiter(boundary)|;
             j >= |HeaderBlock(f)| || (!Clean(f.filename) && j >= 2 + NameOffset(f))
    ensures i + 2 >= ContentAt(items, k + 1, boundary) || Past(items, k + 1, i, boundary)
  {
    hide HeaderBlock, NameOffset, Clean, Delimiter;
  }

  lemma DelimiterLater(items: seq<Part>, k: nat, j: nat, boundary: string)
    requires AllSealed(items, Delimiter(boundary)) && k < |items|
    requires OccursAt(After(items, k, boundary) + CRLF, Delimiter(boundary), j)
    ensures k + 1 < |items|
    ensures var f := items[k + 1].file; j >= |HeaderBlock(f)| || (!Clean(f.filename) && j >= 2 + NameOffset(f))
  {
    AfterText(items, k, boundary);
    NoneInClosing(boundary, j);
    if k + 1 < |items| {
      assert Sealed(items[k + 1], Delimiter(boundary));
      DelimiterInHead(items[k + 1].file, FromContent(items, k + 1, boundary), boundary, j);
    }
  }

  lemma OpeningEnds(f: FileInfo, v: string, boundary: string, p: nat)
    requires ValidBoundary(boundary) && Plain(f) && p >= 1
    requires OccursAt(OpeningLine(boundary) + (HeaderBlock(f) + v), OpeningLine(boundary), p)
    requires p + 2 <= |HeaderBlock(f)|
    ensures p + 2 == |HeaderBlock(f)| && f.contentType != ""
  {
    var open, h := OpeningLine(boundary), HeaderBlock(f);
    var s, n := open + (h + v), |open|;
    OccursCrlf(s, open, p, n - 2);
    assert s[n - 1] == '\n';
    assert p > 1 && CrlfAt(h + v, p - 2);
    BlockEnds(f, v, p - 2);
    OccursByte(s, open, p, n - 3);
    assert open[n - 3] != '"';
    assert p > 2 && s[n + p - 3] == (h + v)[p - 3] == h[p - 3];
    DispositionQuote(f);
  }

  lemma DispositionQuote(f: FileInfo)
    ensures var line := DispositionLine(f); |line| > 0 && HeaderBlock(f)[|line| - 1] == '"'
  {
    var line := DispositionLine(f);
    assert line[|line| - 1] == '"';
  }

  /** The header block of item `k`, and what is behind it. */
  lemma BlockIs(items: seq<Part>, k: nat, boundary: string)
    requires k < |items|
    ensures var w, f := Serialize(items, boundary), items[k].file;
            var at := ContentAt(items, k, boundary) - |HeaderBlock(f)|;
            0 <= at <= |w| && w[at..] == HeaderBlock(f) + FromContent(items, k, boundary)
  {
    if k == 0 {
      BlockFirst(items, boundary);
    } else {
      BlockNext(items, k, boundary);
    }
  }

  lemma BlockFirst(items: seq<Part>, boundary: string)
    requires items != []
    ensures var w, f := Serialize(items, boundary), items[0].file;
            var at := ContentAt(items, 0, boundary) - |HeaderBlock(f)|;
            at == |OpeningLine(boundary)| <= |w| && w[at..] == HeaderBlock(f) + FromContent(items, 0, boundary)
  {
    var open, h, v := OpeningLine(boundary), HeaderBlock(items[0].file), FromContent(items, 0, boundary);
    SerializeTail(items, 0, boundary);
    TailText(items, 0, boundary);
    assert Serialize(items, boundary) == open + Tail(items, 0, boundary) + CRLF;
    hide Serialize, FromContent, HeaderBlock, Tail, OpeningLine;
    Associative(open, Tail(items, 0, boundary), CRLF);
    assert (open + (h + v))[|open|..] == h + v;
  }

  lemma BlockNext(items: seq<Part>, k: nat, boundary: string)
    requires 0 < k < |items|
    ensures var w, f := Serialize(items, boundary), items[k].file;
            var at := ContentAt(items, k, boundary) - |HeaderBlock(f)|;
            0 <= at <= |w| && w[at..] == HeaderBlock(f) + FromContent(items, k, boundary)
  {
    var h, v := HeaderBlock(items[k].file), FromContent(items, k, boundary);
    var c, d := items[k - 1].content, Delimiter(boundary);
    ContentIs(items, k - 1, boundary);
    AfterText(items, k - 1, boundary);
    assert FromContent(items, k - 1, boundary) == c + d + (CRLF + (h + v));
    hide Serialize, FromContent, HeaderBlock, Delimiter;
    BlockBehind(Serialize(items, boundary), ContentAt(items, k - 1, boundary), c, d, h + v);
  }

  lemma BlockBehind(w: string, at: nat, c: string, d: string, r: string)
    requires at <= |w| && w[at..] == c + d + (CRLF + r)
    ensures at + |c| + |d| + 2 <= |w| && w[at + |c| + |d| + 2..] == r
  {
    CutTwo(w, at, c, d, CRLF + r);
    CutPrefix(w, at + |c| + |d|, CRLF, r);
  }

  lemma OpeningsAre(items: seq<Part>, p: nat, boundary: string)
    requires ValidBoundary(boundary) && AllSealed(items, Delimiter(boundary)) && items != [] && p >= 1
    requires Clean(items[0].file.filename)
    requires OccursAt(Serialize(items, boundary), OpeningLine(boundary), p)
    requires p + |OpeningLine(boundary)| + 2 <= ContentAt(items, 0, boundary)
    ensures p + |OpeningLine(boundary)| + 2 == ContentAt(items, 0, boundary) && items[0].file.contentType != ""
  {
    var open, h, v := OpeningLine(boundary), HeaderBlock(items[0].file), FromContent(items, 0, boundary);
    assert Sealed(items[0], Delimiter(boundary));
    SerializeTail(items, 0, boundary);
    TailText(items, 0, boundary);
    Associative(open, Tail(items, 0, boundary), CRLF);
    OpeningEnds(items[0].file, v, boundary, p);
  }

  lemma ClosingEnds(boundary: string, i: nat)
    requires ValidBoundary(boundary) && CrlfAt(Delimiter(boundary) + (DASH + CRLF), i)
    ensures i == 0 || i == |Delimiter(boundary)| + 2
  {
    var s, delim := Delimiter(boundary) + (DASH + CRLF), Delimiter(boundary);
    DelimiterHasNoBorder(boundary);
    assert forall j :: 0 <= j < |delim| ==> s[j] == delim[j];
    assert s[|delim|] == '-' && s[|delim| + 1] == '-';
  }

  /** The last content starts, the last delimiter begins. */
  lemma LastDelimiter(items: seq<Part>, boundary: string)
    requires items != []
    ensures var w, at := Serialize(items, boundary), DelimiterAt(items, |items| - 1, boundary);
            at <= |w| && w[at..] == Delimiter(boundary) + (DASH + CRLF)
            && w[ContentAt(items, |items| - 1, boundary)..at] == items[|items| - 1].content
  {
    var w, n := Serialize(items, boundary), |items| - 1;
    var c, r := items[n].content, Delimiter(boundary) + (DASH + CRLF);
    ContentIs(items, n, boundary);
    Associative(c, Delimiter(boundary), DASH + CRLF);
    CutPrefix(w, ContentAt(items, n, boundary), c, r);
  }

  /** A blank line that ends behind the start of the last delimiter ends with the line end that delimiter begins
      with. */
  lemma BlankBehindLast(items: seq<Part>, b: nat, boundary: string)
    requires ValidBoundary(boundary) && items != []
    requires BlankEnds(Serialize(items, boundary), b) && b > DelimiterAt(items, |items| - 1, boundary)
    ensures b == DelimiterAt(items, |items| - 1, boundary) + 2
  {
    var w, at := Serialize(items, boundary), DelimiterAt(items, |items| - 1, boundary);
    var r, n := Delimiter(boundary) + (DASH + CRLF), |Delimiter(boundary)|;
    LastDelimiter(items, boundary);
    assert r[0] == '\r' && r[n] == '-';
    hide Serialize, Delimiter, ContentAt, DelimiterAt;
    assert w[at] == w[at..][0];
    if b - 2 >= at {
      CrlfDrop(w, at, r, b - 2);
      ClosingEnds(boundary, b - 2 - at);
      assert w[at + n] == w[at..][n];
    }
  }

  lemma CrlfDrop(w: string, at: nat, r: string, i: nat)
    requires at <= i && at <= |w| && w[at..] == r && CrlfAt(w, i)
    ensures CrlfAt(r, i - at)
  {
    assert r[i - at] == w[i] && r[i + 1 - at] == w[i + 1];
  }

  // ---------- a reading that is late stays late ----------

  /** `rest` is the next input at `pos`, `future` what will arrive behind it. */
  predicate At(w: string, pos: nat, rest: string, future: string) {
    pos <= |w| && rest + future == w[pos..]
  }

  lemma AtDrop(w: string, pos: nat, rest: string, future: string, n: nat)
    requires At(w, pos, rest, future) && n <= |rest|
    ensures At(w, pos + n, rest[n..], future) && w[pos..pos + n] == rest[..n]
  {
    assert (rest + future)[n..] == rest[n..] + future;
    assert w[pos..][n..] == w[pos + n..];
    assert (rest + future)[..n] == rest[..n];
    assert w[pos..][..n] == w[pos..pos + n];
  }

  lemma AtAll(w: string, pos: nat, rest: string, future: string)
    requires At(w, pos, rest, future)
    ensures pos <= |w| - |future| && At(w, |w| - |future|, "", future)
  {
    assert w[pos..][|rest|..] == w[|w| - |future|..];
  }

  lemma AtOccurs(w: string, pos: nat, rest: string, future: string, pat: string, i: nat)
    requires At(w, pos, rest, future) && i + |pat| <= |rest|
    ensures OccursAt(w, pat, pos + i) == OccursAt(rest, pat, i)
  {
    OccursExtend(rest, future, pat, i);
    OccursDrop(w, pat, pos, pos + i);
  }

  lemma AtCrlf(w: string, pos: nat, rest: string, future: string, i: nat)
    requires At(w, pos, rest, future) && OccursAt(rest, CRLF, i)
    ensures CrlfAt(w, pos + i)
  {
    AtOccurs(w, pos, rest, future, CRLF, i);
    OccursCrlf(w, CRLF, pos + i, 0);
  }

  /** Some part has been reported wrongly, for good: its header information, or its finished content. */
  predicate Misread(s: Snapshot, items: seq<Part>) {
    var ps := Parts(s.log);
    exists j :: 0 <= j < |ps| && j < |items| && Differs(ps, j, items[j], s.state.Body?)
  }

  predicate Differs(ps: seq<Part>, j: nat, item: Part, open: bool)
    requires j < |ps|
  {
    ps[j].file != item.file || (ps[j].content != item.content && (j + 1 < |ps| || !open))
  }

  /** A line read at `pos` lies behind the header block of item `k`, or is the blank line of an opening line that
      was found inside the first content type. */
  predicate Ahead(items: seq<Part>, k: nat, pos: nat, boundary: string)
    requires k < |items|
  {
    || pos + 2 > ContentAt(items, k, boundary)
    || (k == 0 && pos + 2 == ContentAt(items, 0, boundary) && items[0].file.contentType != "")
  }

  /** The content that is being read began, behind a blank line, later than `at`, and holds no delimiter. */
  ghost predicate Inside(w: string, delim: string, at: nat, content: string, pos: nat) {
    var b := pos - |content|;
    && at < b && pos <= |w| && w[b..pos] == content
    && BlankEnds(w, b)
    && (content != "" ==> pos + |delim| <= |w|)
    && NoneBetween(w, delim, b, pos)
  }

  ghost predicate NoneBetween(w: string, pat: string, a: int, b: int) {
    forall i :: a <= i < b ==> !OccursAt(w, pat, i)
  }

  /** Nothing has been misread, but the parser is further in the text than it would be having read as many parts. */
  ghost predicate Late(s: Snapshot, future: string, pos: nat, items: seq<Part>, boundary: string) {
    var w, ps := Serialize(items, boundary), Parts(s.log);
    var k := |ps|;
    && At(w, pos, s.rest, future)
    && match s.state
       case InitialBoundary => k == 0 && pos >= 1
       case NewEntry => k < |items| && CrlfAt(w, pos - 2) && Ahead(items, k, pos, boundary)
       case Headers =>
         && k < |items| && CrlfAt(w, pos - 2) && Ahead(items, k, pos, boundary)
         && (pos + 2 == ContentAt(items, k, boundary) ==> s.file == NO_FILE)
       case Body =>
         && 0 < k <= |items|
         && Inside(w, Delimiter(boundary), ContentAt(items, k - 1, boundary), ps[k - 1].content, pos)
       case Boundary => k < |items| && pos > ContentAt(items, k, boundary)
  }

  /** Nothing has been misread, but the next item has a file name with a reserved byte, and the parser is at its
      header block or inside it. */
  ghost predicate Near(s: Snapshot, future: string, pos: nat, items: seq<Part>, boundary: string) {
    var k := |Parts(s.log)|;
    && k < |items| && !Clean(items[k].file.filename)
    && match s.state
       case NewEntry => Reading(NO_FILE, s.rest + future, items[k].file, FromContent(items, k, boundary))
       case Headers => Reading(s.file, s.rest + future, items[k].file, FromContent(items, k, boundary))
       case Boundary => At(Serialize(items, boundary), pos, s.rest, future) && Past(items, k, pos, boundary)
       case _ => false
  }

  /** What the theorem is about: items that can be reported but for their file names, an accepted boundary, and
      callbacks that accept. */
  ghost predicate Form(items: seq<Part>, boundary: string, callbacks: Callbacks) {
    Accepting(callbacks) && ValidBoundary(boundary) && items != [] && AllSealed(items, Delimiter(boundary))
  }

  /** The form will not be reported. */
  ghost predicate Lost(s: Snapshot, future: string, pos: nat, items: seq<Part>, boundary: string) {
    Misread(s, items) || Late(s, future, pos, items, boundary) || Near(s, future, pos, items, boundary)
  }

  ghost predicate LateOutcome(o: Outcome, future: string, pos: nat, items: seq<Part>, boundary: string) {
    (o.Return? && !o.ok) || Lost(o.next, future, pos, items, boundary)
  }

  /** Behind a line end that is no nearer than the file name of an item, if that has a reserved byte. */
  lemma PastReading(items: seq<Part>, k: nat, pos: nat, boundary: string)
    requires AllSealed(items, Delimiter(boundary)) && k < |items| && !Clean(items[k].file.filename)
    requires ContentAt(items, k, boundary) - |HeaderBlock(items[k].file)| <= pos < ContentAt(items, k, boundary)
    requires CrlfAt(Serialize(items, boundary), pos)
    ensures var w := Serialize(items, boundary);
            pos + 2 == ContentAt(items, k, boundary)
            || Reading(NO_FILE, w[pos + 2..], items[k].file, FromContent(items, k, boundary))
  {
    var w, f, v := Serialize(items, boundary), items[k].file, FromContent(items, k, boundary);
    assert Sealed(items[k], Delimiter(boundary));
    BlockIs(items, k, boundary);
    hide Serialize, FromContent, HeaderBlock, ContentAt, Reading;
    var at := ContentAt(items, k, boundary) - |HeaderBlock(f)|;
    CrlfDrop(w, at, HeaderBlock(f) + v, pos);
    LineEndReading(f, v, pos - at);
    assert w[at..][pos - at + 2..] == w[pos + 2..];
  }

  /** Behind an opening line found anywhere but at the start. */
  lemma FoundOpening(w: string, open: string, p: nat, items: seq<Part>, boundary: string)
    requires w == Serialize(items, boundary) && open == OpeningLine(boundary) && items != []
    requires ValidBoundary(boundary) && AllSealed(items, Delimiter(boundary)) && p >= 1 && OccursAt(w, open, p)
    ensures CrlfAt(w, p + |open| - 2)
    ensures Ahead(items, 0, p + |open|, boundary)
            || (!Clean(items[0].file.filename)
                && Reading(NO_FILE, w[p + |open|..], items[0].file, FromContent(items, 0, boundary)))
  {
    OpeningIsLong(boundary);
    hide Serialize, ContentAt, OpeningLine, OccursAt, Reading, AllSealed, HeaderBlock, Clean, FromContent, CrlfAt;
    OccursCrlf(w, open, p, |open| - 2);
    BehindStart(items, p, boundary);
    if p + |open| + 2 <= ContentAt(items, 0, boundary) {
      if Clean(items[0].file.filename) {
        OpeningsAre(items, p, boundary);
      } else {
        PastReading(items, 0, p + |open| - 2, boundary);
      }
    }
  }

  lemma OpeningIsLong(boundary: string)
    ensures var open := OpeningLine(boundary); |open| >= 4 && CrlfAt(open, |open| - 2)
  {
  }

  /** The line end of such an opening line is not that of the first one. */
  lemma BehindStart(items: seq<Part>, p: nat, boundary: string)
    requires items != [] && p >= 1 && CrlfAt(Serialize(items, boundary), p + |OpeningLine(boundary)| - 2)
    ensures p + |OpeningLine(boundary)| - 2 >= ContentAt(items, 0, boundary) - |HeaderBlock(items[0].file)|
  {
    var w, open := Serialize(items, boundary), OpeningLine(boundary);
    SerializeTail(items, 0, boundary);
    Associative(open, Tail(items, 0, boundary), CRLF);
    assert w[|open| - 1] == open[|open| - 1] == '\n';
  }

  lemma OpeningLate(s: Snapshot, future: string, pos: nat, items: seq<Part>, boundary: string, callbacks: Callbacks)
    returns (next: nat)
    requires Form(items, boundary, callbacks) && Late(s, future, pos, items, boundary) && s.state.InitialBoundary?
    ensures LateOutcome(ReadOpening(s, OpeningLine(boundary)), future, next, items, boundary)
  {
    var w, open := Serialize(items, boundary), OpeningLine(boundary);
    OpeningIsLong(boundary);
    hide Serialize, OpeningLine, Find, FindFrom, TakeOpening, Lost, Form;
    AtDrop(w, pos, s.rest, future, Find(s.rest, open));
    next := TakenOpening(SkipTo(s, open), future, pos + Find(s.rest, open), items, boundary, callbacks);
  }

  lemma TakenOpening(t: Snapshot, future: string, pos: nat, items: seq<Part>, boundary: string, callbacks: Callbacks)
    returns (next: nat)
    requires Form(items, boundary, callbacks) && t.state.InitialBoundary? && Parts(t.log) == []
    requires At(Serialize(items, boundary), pos, t.rest, future) && pos >= 1
    ensures LateOutcome(TakeOpening(t, OpeningLine(boundary)), future, next, items, boundary)
  {
    var w, open := Serialize(items, boundary), OpeningLine(boundary);
    OpeningIsLong(boundary);
    LateInitial(t, future, pos, items, boundary);
    hide Serialize, OpeningLine, OccursAt, AllSealed, Lost, Clean, Reading, Ahead, FromContent, Parts, CrlfAt;
    next := pos;
    if |open| <= |t.rest| && t.rest[..|open|] == open {
      AtDrop(w, pos, t.rest, future, |open|);
      OccursAtStart(w, pos, open);
      FoundOpening(w, open, pos, items, boundary);
      next := pos + |open|;
      EntryLost(t.(rest := t.rest[|open|..], state := NewEntry), future, next, items, 0, boundary);
    }
  }

  lemma LateInitial(t: Snapshot, future: string, pos: nat, items: seq<Part>, boundary: string)
    requires t.state.InitialBoundary? && Parts(t.log) == [] && At(Serialize(items, boundary), pos, t.rest, future)
    requires pos >= 1
    ensures Lost(t, future, pos, items, boundary)
  {
  }

  /** In front of an entry: ahead, or in the header block of a name with a reserved byte. */
  lemma EntryLost(t: Snapshot, future: string, pos: nat, items: seq<Part>, k: nat, boundary: string)
    requires k < |items| && t.state.NewEntry? && |Parts(t.log)| == k
    requires At(Serialize(items, boundary), pos, t.rest, future) && CrlfAt(Serialize(items, boundary), pos - 2)
    requires Ahead(items, k, pos, boundary)
             || (!Clean(items[k].file.filename)
                 && Reading(NO_FILE, Serialize(items, boundary)[pos..], items[k].file, FromContent(items, k, boundary)))
    ensures Lost(t, future, pos, items, boundary)
  {
  }

  lemma OccursAtStart(w: string, p: nat, pat: string)
    requires p + |pat| <= |w| && w[p..p + |pat|] == pat
    ensures OccursAt(w, pat, p)
  {
  }

  lemma BlankOfFirst(items: seq<Part>, boundary: string)
    requires items != []
    ensures ContentAt(items, 0, boundary) >= 2 && CrlfAt(Serialize(items, boundary), ContentAt(items, 0, boundary) - 2)
  {
    var open, h, v := OpeningLine(boundary), HeaderBlock(items[0].file), FromContent(items, 0, boundary);
    SerializeTail(items, 0, boundary);
    TailText(items, 0, boundary);
    Associative(open, Tail(items, 0, boundary), CRLF);
    var w := open + (h + v);
    assert w[|open| + |h| - 2] == h[|h| - 2] == '\r' && w[|open| + |h| - 1] == h[|h| - 1] == '\n';
  }

  /** In front of the blank line of the first item no header line is read. */
  lemma BlankIsNext(s: Snapshot, future: string, pos: nat, items: seq<Part>, boundary: string)
    requires items != [] && At(Serialize(items, boundary), pos, s.rest, future)
    requires pos + 2 == ContentAt(items, 0, boundary) && |s.rest| >= 2
    ensures Find(s.rest, CRLF) == 0
  {
    BlankOfFirst(items, boundary);
    AtDrop(Serialize(items, boundary), pos, s.rest, future, 2);
    assert s.rest[0..2] == CRLF;
    FindUnique(s.rest, CRLF, 0);
  }

  lemma TakenLate(s: Snapshot, future: string, pos: nat, items: seq<Part>, boundary: string)
    requires Late(s, future, pos, items, boundary) && s.state.Headers?
    requires 0 < Find(s.rest, CRLF) < |s.rest|
    ensures var p := Find(s.rest, CRLF);
            var (ok, t) := TakeLine(s, p);
            ok ==> t.state.Headers? && t.log == s.log && Late(t, future, pos + p + 2, items, boundary)
  {
    hide ApplyHeader, Serialize, ContentAt, DelimiterAt, Find, FindFrom;
    var w, p := Serialize(items, boundary), Find(s.rest, CRLF);
    AtCrlf(w, pos, s.rest, future, p);
    AtDrop(w, pos, s.rest, future, p + 2);
    if pos + 2 == ContentAt(items, 0, boundary) {
      BlankIsNext(s, future, pos, items, boundary);
    }
  }

  lemma HeadersEndLate(s: Snapshot, future: string, pos: nat, items: seq<Part>, boundary: string, callbacks: Callbacks)
    requires Form(items, boundary, callbacks) && Late(s, future, pos, items, boundary) && s.state.Headers?
    requires Find(s.rest, CRLF) == 0 && s.rest != ""
    ensures LateOutcome(EndHeaders(s, callbacks), future, pos + 2, items, boundary)
  {
    hide Serialize, ContentAt, DelimiterAt, Find, FindFrom, Parts, Delimiter, Near, Reading, AllSealed, Inside;
    var w := Serialize(items, boundary);
    AtCrlf(w, pos, s.rest, future, 0);
    AtDrop(w, pos, s.rest, future, 2);
    PartsSnoc(s.log, Header(s.file));
    var t := EndHeaders(s, callbacks).next;
    var ps := Parts(t.log);
    var k := |ps| - 1;
    assert ps[k] == Part(s.file, "");
    if pos + 2 == ContentAt(items, k, boundary) {
      assert Differs(ps, k, items[k], true);
    } else {
      InsideStarts(w, Delimiter(boundary), ContentAt(items, k, boundary), pos + 2);
    }
  }

  lemma InsideStarts(w: string, delim: string, at: nat, pos: nat)
    requires at < pos <= |w| && BlankEnds(w, pos)
    ensures Inside(w, delim, at, "", pos)
  {
  }

  lemma {:induction false} HeadersLate(s: Snapshot, future: string, pos: nat, items: seq<Part>, boundary: string,
      callbacks: Callbacks)
    returns (next: nat)
    requires Form(items, boundary, callbacks) && Late(s, future, pos, items, boundary) && s.state.Headers?
    ensures LateOutcome(ReadHeaders(s, callbacks), future, next, items, boundary)
    decreases |s.rest|
  {
    hide Form, Lost, ReadHeaders, EndHeaders, TakeLine, Find, FindFrom, Late;
    var p := Find(s.rest, CRLF);
    ReadHeadersIs(s, callbacks);
    next := pos;
    if p == |s.rest| {
      LateIsLost(s, future, pos, items, boundary);
    } else if p == 0 {
      HeadersEndLate(s, future, pos, items, boundary, callbacks);
      next := pos + 2;
    } else {
      TakenLate(s, future, pos, items, boundary);
      var (ok, t) := TakeLine(s, p);
      if ok {
        next := HeadersLate(t, future, pos + p + 2, items, boundary, callbacks);
      }
    }
  }

  lemma LateIsLost(s: Snapshot, future: string, pos: nat, items: seq<Part>, boundary: string)
    requires Late(s, future, pos, items, boundary)
    ensures Lost(s, future, pos, items, boundary)
  {
  }

  lemma ReadHeadersIs(s: Snapshot, callbacks: Callbacks)
    ensures var pos := Find(s.rest, CRLF);
            ReadHeaders(s, callbacks) ==
              if pos == |s.rest| then Return(true, s)
              else if pos == 0 then EndHeaders(s, callbacks)
              else
                var (ok, t) := TakeLine(s, pos);
                if ok then ReadHeaders(t, callbacks) else Return(false, t)
  {
  }

  // ---------- bodies ----------

  /** More content without a delimiter. */
  lemma InsideMore(w: string, delim: string, at: nat, content: string, pos: nat, n: nat)
    requires Inside(w, delim, at, content, pos) && pos + n + |delim| <= |w| && NoneBetween(w, delim, pos, pos + n)
    ensures Inside(w, delim, at, content + w[pos..pos + n], pos + n)
  {
    hide OccursAt, BlankEnds;
    var b, more := pos - |content|, w[pos..pos + n];
    SliceJoin(w, b, pos, pos + n);
    assert pos + n - |content + more| == b;
  }

  /** Content that ends with a delimiter is not that of its item, or the delimiter is not either. */
  lemma InsideEnds(items: seq<Part>, k: nat, content: string, e: nat, boundary: string, callbacks: Callbacks)
    requires Form(items, boundary, callbacks) && k < |items|
    requires Inside(Serialize(items, boundary), Delimiter(boundary), ContentAt(items, k, boundary), content, e)
    requires OccursAt(Serialize(items, boundary), Delimiter(boundary), e)
    ensures content != items[k].content
            || (k + 1 < |items|
                && (e + |Delimiter(boundary)| > ContentAt(items, k + 1, boundary)
                    || Past(items, k + 1, e + |Delimiter(boundary)|, boundary)))
  {
    DelimitersAre(items, k, e, boundary);
  }

  lemma ContentSnoc(log: seq<Event>, data: string)
    requires Parts(log) != []
    ensures var ps, qs := Parts(log), Parts(log + [Content(data)]);
            && |qs| == |ps| && qs[|qs| - 1].content == ps[|ps| - 1].content + data
  {
    PartsSnoc(log, Content(data));
  }

  /** What the parser sees of a delimiter is what there is. */
  lemma BodySight(w: string, pos: nat, rest: string, future: string, delim: string)
    requires At(w, pos, rest, future) && delim != ""
    ensures var p := Find(rest, delim);
            && (p < |rest| ==> OccursAt(w, delim, pos + p) && NoneBetween(w, delim, pos, pos + p))
            && (p == |rest| ==> NoneBetween(w, delim, pos, pos + |rest| - |delim| + 1))
  {
    var p := Find(rest, delim);
    forall i | pos <= i && i + |delim| <= pos + |rest| ensures OccursAt(w, delim, i) == OccursAt(rest, delim, i - pos) {
      AtOccurs(w, pos, rest, future, delim, i - pos);
    }
  }

  lemma DelimiterIsLong(boundary: string)
    ensures |Delimiter(boundary)| >= 4
  {
  }

  lemma FlushLate(s: Snapshot, future: string, pos: nat, n: nat, items: seq<Part>, boundary: string,
      callbacks: Callbacks)
    requires Form(items, boundary, callbacks) && Late(s, future, pos, items, boundary) && s.state.Body?
    requires n == |s.rest| - |Delimiter(boundary)| && Find(s.rest, Delimiter(boundary)) == |s.rest|
    ensures Late(Deliver(s, n, n, Body, callbacks).1, future, pos + n, items, boundary)
  {
    hide Serialize, ContentAt, DelimiterAt, Find, FindFrom, Parts, Inside;
    var w, ps := Serialize(items, boundary), Parts(s.log);
    var k := |ps| - 1;
    BodySight(w, pos, s.rest, future, Delimiter(boundary));
    AtDrop(w, pos, s.rest, future, n);
    ContentSnoc(s.log, s.rest[..n]);
    InsideMore(w, Delimiter(boundary), ContentAt(items, k, boundary), ps[k].content, pos, n);
  }

  lemma FoundLate(s: Snapshot, future: string, pos: nat, items: seq<Part>, boundary: string, callbacks: Callbacks)
    requires Form(items, boundary, callbacks) && Late(s, future, pos, items, boundary) && s.state.Body?
    requires Find(s.rest, Delimiter(boundary)) < |s.rest|
    ensures var p, n := Find(s.rest, Delimiter(boundary)), |Delimiter(boundary)|;
            var t := Deliver(s, p, p + n, Boundary, callbacks).1;
            Lost(t, future, pos + p + n, items, boundary)
  {
    DelimiterIsLong(boundary);
    hide Serialize, ContentAt, DelimiterAt, Find, FindFrom, Parts, Inside, Delimiter, HeaderBlock, NameOffset, Clean;
    var w, ps, delim := Serialize(items, boundary), Parts(s.log), Delimiter(boundary);
    var p, k := Find(s.rest, delim), |ps| - 1;
    var t := Deliver(s, p, p + |delim|, Boundary, callbacks).1;
    BodySight(w, pos, s.rest, future, delim);
    AtDrop(w, pos, s.rest, future, p);
    AtDrop(w, pos, s.rest, future, p + |delim|);
    ContentSnoc(s.log, s.rest[..p]);
    InsideMore(w, delim, ContentAt(items, k, boundary), ps[k].content, pos, p);
    InsideEnds(items, k, ps[k].content + s.rest[..p], pos + p, boundary, callbacks);
    if ps[k].content + s.rest[..p] != items[k].content {
      assert Differs(Parts(t.log), k, items[k], false);
    }
  }

  lemma BodyLate(s: Snapshot, future: string, pos: nat, items: seq<Part>, boundary: string, callbacks: Callbacks)
    returns (next: nat)
    requires Form(items, boundary, callbacks) && Late(s, future, pos, items, boundary) && s.state.Body?
    ensures LateOutcome(ReadBody(s, Delimiter(boundary), callbacks), future, next, items, boundary)
  {
    hide Late, Near, Misread, Find, FindFrom;
    var n, p := |Delimiter(boundary)|, Find(s.rest, Delimiter(boundary));
    next := pos;
    if n <= |s.rest| && p < |s.rest| {
      FoundLate(s, future, pos, items, boundary, callbacks);
      next := pos + p + n;
    } else if n < |s.rest| {
      FlushLate(s, future, pos, |s.rest| - n, items, boundary, callbacks);
      next := pos + |s.rest| - n;
    }
  }

  lemma BoundaryLate(s: Snapshot, future: string, pos: nat, items: seq<Part>, boundary: string)
    returns (next: nat)
    requires Late(s, future, pos, items, boundary) && s.state.Boundary?
    ensures Late(ReadBoundary(s).next, future, next, items, boundary)
  {
    hide Serialize, ContentAt, DelimiterAt;
    var w := Serialize(items, boundary);
    next := pos;
    if |s.rest| >= 2 {
      AtDrop(w, pos, s.rest, future, 2);
      if s.rest[..2] == CRLF {
        assert s.rest[0..2] == CRLF;
        AtCrlf(w, pos, s.rest, future, 0);
        next := pos + 2;
      } else if s.rest[..2] == DASH {
        AtAll(w, pos, s.rest, future);
        next := |w| - |future|;
      }
    }
  }

  lemma EntryLate(s: Snapshot, future: string, pos: nat, items: seq<Part>, boundary: string)
    requires Late(s, future, pos, items, boundary) && s.state.NewEntry?
    ensures Late(s.(file := NO_FILE, state := Headers), future, pos, items, boundary)
  {
  }

  lemma StepLate(s: Snapshot, future: string, pos: nat, items: seq<Part>, boundary: string, callbacks: Callbacks)
    returns (next: nat)
    requires Form(items, boundary, callbacks) && Late(s, future, pos, items, boundary)
    ensures LateOutcome(Step(s, boundary, callbacks), future, next, items, boundary)
  {
    hide Late, Near, Misread, Form, ReadOpening, ReadHeaders, ReadBody, ReadBoundary, Find, FindFrom;
    next := pos;
    match s.state
    case InitialBoundary => next := OpeningLate(s, future, pos, items, boundary, callbacks);
    case NewEntry => EntryLate(s, future, pos, items, boundary);
    case Headers => next := HeadersLate(s, future, pos, items, boundary, callbacks);
    case Body => next := BodyLate(s, future, pos, items, boundary, callbacks);
    case Boundary => next := BoundaryLate(s, future, pos, items, boundary);
  }

  // ---------- a header block with a reserved byte in its file name ----------

  lemma NearHeaders(s: Snapshot, future: string, pos: nat, items: seq<Part>, boundary: string, callbacks: Callbacks)
    requires Form(items, boundary, callbacks) && Near(s, future, pos, items, boundary) && s.state.Headers?
    ensures LateOutcome(ReadHeaders(s, callbacks), future, pos, items, boundary)
  {
    var k := |Parts(s.log)|;
    var o := ReadHeaders(s, callbacks);
    assert Sealed(items[k], Delimiter(boundary));
    HeadersReading(s, future, items[k].file, FromContent(items, k, boundary), callbacks);
    hide Reading, FromContent, ReadHeaders, Parts;
    if o.Continue? {
      PartsSnoc(s.log, Header(o.next.file));
      assert Differs(Parts(o.next.log), k, items[k], true) && Differs(Parts(o.next.log), k, items[k], false);
    }
  }

  lemma NearEntry(s: Snapshot, future: string, pos: nat, items: seq<Part>, boundary: string)
    requires AllSealed(items, Delimiter(boundary)) && Near(s, future, pos, items, boundary) && s.state.Boundary?
    requires |s.rest| >= 2 && s.rest[..2] == CRLF
    ensures Lost(s.(rest := s.rest[2..], state := NewEntry), future, pos + 2, items, boundary)
  {
    var w, k := Serialize(items, boundary), |Parts(s.log)|;
    NameOffsetPositive(items[k].file);
    hide Serialize, ContentAt, HeaderBlock, Reading, Parts, FromContent, Clean, AllSealed, NameOffset, Lost, Misread;
    AtDrop(w, pos, s.rest, future, 2);
    assert s.rest[0..2] == CRLF;
    AtCrlf(w, pos, s.rest, future, 0);
    if pos < ContentAt(items, k, boundary) {
      PastReading(items, k, pos, boundary);
    }
    EntryLost(s.(rest := s.rest[2..], state := NewEntry), future, pos + 2, items, k, boundary);
  }

  lemma NearClosing(s: Snapshot, future: string, pos: nat, items: seq<Part>, boundary: string) returns (next: nat)
    requires Near(s, future, pos, items, boundary) && s.state.Boundary?
    ensures Near(s.(rest := "", valid := true), future, next, items, boundary)
  {
    var w := Serialize(items, boundary);
    hide Serialize, ContentAt, HeaderBlock, Parts, Clean, NameOffset;
    AtAll(w, pos, s.rest, future);
    next := |w| - |future|;
  }

  lemma NearBoundary(s: Snapshot, future: string, pos: nat, items: seq<Part>, boundary: string)
    returns (next: nat)
    requires AllSealed(items, Delimiter(boundary)) && Near(s, future, pos, items, boundary) && s.state.Boundary?
    ensures LateOutcome(ReadBoundary(s), future, next, items, boundary)
  {
    hide Near, Late, Misread, AllSealed;
    next := pos;
    if |s.rest| >= 2 && s.rest[..2] == CRLF {
      NearEntry(s, future, pos, items, boundary);
      next := pos + 2;
    } else if |s.rest| >= 2 && s.rest[..2] == DASH {
      next := NearClosing(s, future, pos, items, boundary);
    }
  }

  lemma NameOffsetPositive(f: FileInfo)
    requires !Clean(f.filename)
    ensures NameOffset(f) >= 0
  {
    NameOffsetIs(f);
  }

  lemma StepNear(s: Snapshot, future: string, pos: nat, items: seq<Part>, boundary: string, callbacks: Callbacks)
    returns (next: nat)
    requires Form(items, boundary, callbacks) && Near(s, future, pos, items, boundary)
    ensures LateOutcome(Step(s, boundary, callbacks), future, next, items, boundary)
  {
    next := pos;
    match s.state
    case NewEntry =>
      assert Near(s.(file := NO_FILE, state := Headers), future, pos, items, boundary);
    case Headers =>
      hide Near, Form, Lost, ReadHeaders;
      NearHeaders(s, future, pos, items, boundary, callbacks);
    case Boundary =>
      hide Near, Lost, ReadBoundary;
      next := NearBoundary(s, future, pos, items, boundary);
  }

  // ---------- what has been misread stays misread ----------

  lemma {:induction false} HeadersLog(s: Snapshot, callbacks: Callbacks)
    requires Accepting(callbacks)
    ensures var o := ReadHeaders(s, callbacks);
            && (o.Continue? ==> o.next.log == s.log + [Header(o.next.file)] && o.next.state.Body?)
            && (o.Return? ==> o.next.log == s.log && o.next.state == s.state)
    decreases |s.rest|
  {
    var pos := Find(s.rest, CRLF);
    if 0 < pos < |s.rest| {
      var (ok, t) := TakeLine(s, pos);
      if ok {
        HeadersLog(t, callbacks);
      }
    }
  }

  lemma MisreadHeaders(s: Snapshot, items: seq<Part>, callbacks: Callbacks)
    requires Accepting(callbacks) && Misread(s, items) && s.state.Headers?
    ensures Misread(ReadHeaders(s, callbacks).next, items)
  {
    HeadersLog(s, callbacks);
    var t := ReadHeaders(s, callbacks).next;
    var ps, qs := Parts(s.log), Parts(t.log);
    if t.log != s.log {
      PartsSnoc(s.log, Header(t.file));
      var j :| 0 <= j < |ps| && j < |items| && Differs(ps, j, items[j], false);
      assert qs[j] == ps[j] && Differs(qs, j, items[j], true);
    }
  }

  lemma MisreadContent(s: Snapshot, t: Snapshot, data: string, items: seq<Part>)
    requires Misread(s, items) && s.state.Body? && t.log == s.log + [Content(data)]
    ensures Misread(t, items)
  {
    var ps, qs := Parts(s.log), Parts(t.log);
    PartsSnoc(s.log, Content(data));
    var j :| 0 <= j < |ps| && j < |items| && Differs(ps, j, items[j], true);
    assert qs[j].file == ps[j].file && (j + 1 < |ps| ==> qs[j] == ps[j]);
    assert Differs(qs, j, items[j], true) && Differs(qs, j, items[j], false);
  }

  lemma MisreadBody(s: Snapshot, items: seq<Part>, delim: string, callbacks: Callbacks)
    requires Accepting(callbacks) && Misread(s, items) && s.state.Body? && delim != ""
    ensures Misread(ReadBody(s, delim, callbacks).next, items)
  {
    hide Misread, Find, FindFrom;
    var t, pos, n := ReadBody(s, delim, callbacks).next, Find(s.rest, delim), |s.rest| - |delim|;
    if n >= 0 && pos < |s.rest| {
      MisreadContent(s, t, s.rest[..pos], items);
    } else if n > 0 {
      MisreadContent(s, t, s.rest[..n], items);
    }
  }

  lemma MisreadStep(s: Snapshot, items: seq<Part>, boundary: string, callbacks: Callbacks)
    requires Accepting(callbacks) && Misread(s, items)
    ensures Misread(Step(s, boundary, callbacks).next, items)
  {
    match s.state
    case Headers => MisreadHeaders(s, items, callbacks);
    case Body => MisreadBody(s, items, Delimiter(boundary), callbacks);
    case _ =>
  }

  // ---------- runs ----------

  lemma {:induction false} RunLate(s: Snapshot, future: string, pos: nat, items: seq<Part>, boundary: string,
      callbacks: Callbacks)
    returns (next: nat)
    requires Form(items, boundary, callbacks) && Lost(s, future, pos, items, boundary)
    ensures var (ok, t) := Run(s, boundary, callbacks); ok ==> Lost(t, future, next, items, boundary)
    decreases |s.rest|, if s.state.NewEntry? then 1 else 0
  {
    next := pos;
    if s.rest != "" {
      hide Step, Late, Near, Misread;
      if Misread(s, items) {
        MisreadStep(s, items, boundary, callbacks);
      } else if Near(s, future, pos, items, boundary) {
        next := StepNear(s, future, pos, items, boundary, callbacks);
      } else {
        next := StepLate(s, future, pos, items, boundary, callbacks);
      }
      var o := Step(s, boundary, callbacks);
      if o.Continue? {
        next := RunLate(o.next, future, next, items, boundary, callbacks);
      }
    }
  }

  lemma StepSettles(s: Snapshot, boundary: string, callbacks: Callbacks)
    requires Accepting(callbacks)
    ensures var o := Step(s, boundary, callbacks);
            o.Return? && o.next.state.Body? ==> |o.next.rest| <= |Delimiter(boundary)|
  {
    hide Find, FindFrom, Delimiter;
    match s.state
    case Headers => HeadersLog(s, callbacks);
    case _ =>
  }

  /** What a call leaves unread inside a body is no longer than the delimiter. */
  lemma {:induction false} RunSettles(s: Snapshot, boundary: string, callbacks: Callbacks)
    requires Accepting(callbacks)
    ensures var (ok, t) := Run(s, boundary, callbacks); ok && t.state.Body? ==> |t.rest| <= |Delimiter(boundary)|
    decreases |s.rest|, if s.state.NewEntry? then 1 else 0
  {
    if s.rest != "" {
      StepSettles(s, boundary, callbacks);
      hide Step;
      var o := Step(s, boundary, callbacks);
      if o.Continue? {
        RunSettles(o.next, boundary, callbacks);
      }
    }
  }

  lemma AtAppend(w: string, pos: nat, rest: string, c: string, future: string)
    ensures At(w, pos, rest, c + future) == At(w, pos, rest + c, future)
  {
    Associative(rest, c, future);
  }

  lemma PlusLate(s: Snapshot, c: string, future: string, pos: nat, items: seq<Part>, boundary: string)
    requires Lost(s, c + future, pos, items, boundary)
    ensures Lost(Plus(s, c), future, pos, items, boundary)
  {
    AtAppend(Serialize(items, boundary), pos, s.rest, c, future);
    Associative(s.rest, c, future);
  }

  lemma {:induction false} FeedAllLate(s: Snapshot, chunks: seq<string>, pos: nat, items: seq<Part>,
      boundary: string, callbacks: Callbacks)
    returns (next: nat)
    requires Form(items, boundary, callbacks) && Lost(s, Flatten(chunks), pos, items, boundary)
    requires s.state.Body? ==> |s.rest| <= |Delimiter(boundary)|
    ensures var (ok, t) := FeedAll(s, chunks, boundary, callbacks);
            ok ==> Lost(t, "", next, items, boundary) && (t.state.Body? ==> |t.rest| <= |Delimiter(boundary)|)
    decreases |chunks|
  {
    next := pos;
    if chunks != [] {
      var c, future := chunks[0], Flatten(chunks[1..]);
      PlusLate(s, c, future, pos, items, boundary);
      hide Lost, Run;
      next := RunLate(Plus(s, c), future, pos, items, boundary, callbacks);
      RunSettles(Plus(s, c), boundary, callbacks);
      var (ok, t) := Feed(s, c, boundary, callbacks);
      if ok {
        next := FeedAllLate(t, chunks[1..], next, items, boundary, callbacks);
      }
    }
  }

  // ---------- the end of the input ----------

  lemma LastBytes(items: seq<Part>, boundary: string)
    requires items != []
    ensures var w, c := Serialize(items, boundary), items[|items| - 1].content;
            var at := DelimiterAt(items, |items| - 1, boundary);
            && |c| <= at && at + 2 < |w| && w[at + 2] == '-'
            && (c != "" ==> w[at - |c|] == c[0])
  {
    var w, c, at := Serialize(items, boundary), items[|items| - 1].content, DelimiterAt(items, |items| - 1, boundary);
    var r := Delimiter(boundary) + (DASH + CRLF);
    LastDelimiter(items, boundary);
    assert |r| >= 8 && r[2] == '-' && at == ContentAt(items, |items| - 1, boundary) + |c|;
    hide Serialize, Delimiter, ContentAt, DelimiterAt;
    assert w[at + 2] == w[at..][2];
    assert c != "" ==> w[at - |c|] == w[at - |c|..at][0];
  }

  lemma BlanksBehindLast(items: seq<Part>, boundary: string, at: nat)
    requires ValidBoundary(boundary) && items != [] && at == DelimiterAt(items, |items| - 1, boundary)
    ensures forall b: nat :: BlankEnds(Serialize(items, boundary), b) && b > at ==> b == at + 2
  {
    hide Serialize, BlankEnds, DelimiterAt;
    forall b: nat | BlankEnds(Serialize(items, boundary), b) && b > at ensures b == at + 2 {
      BlankBehindLast(items, b, boundary);
    }
  }

  /** A content that is read late is never the last one. */
  lemma LastIsNotInside(items: seq<Part>, pos: nat, boundary: string)
    requires ValidBoundary(boundary) && items != []
    requires pos <= |Serialize(items, boundary)| <= pos + |Delimiter(boundary)|
    ensures var n := |items| - 1;
            !Inside(Serialize(items, boundary), Delimiter(boundary), ContentAt(items, n, boundary), items[n].content,
              pos)
  {
    var w, c, at := Serialize(items, boundary), items[|items| - 1].content, DelimiterAt(items, |items| - 1, boundary);
    assert at == ContentAt(items, |items| - 1, boundary) + |c|;
    hide Serialize, Delimiter, OccursAt, Inside, ContentAt, DelimiterAt, BlankEnds;
    LastOccurs(items, boundary);
    LastBytes(items, boundary);
    DelimiterIsLong(boundary);
    BlanksBehindLast(items, boundary, at);
    NotBehindLast(w, Delimiter(boundary), c, at, pos);
  }

  lemma NotBehindLast(w: string, delim: string, c: string, at: nat, pos: nat)
    requires OccursAt(w, delim, at) && |w| == at + |delim| + 4 && |delim| >= 4 && |w| <= pos + |delim|
    requires |c| <= at && w[at + 2] == '-' && (c != "" ==> w[at - |c|] == c[0])
    requires forall b: nat :: BlankEnds(w, b) && b > at ==> b == at + 2
    ensures !Inside(w, delim, at - |c|, c, pos)
  {
    hide OccursAt;
    if Inside(w, delim, at - |c|, c, pos) {
      InsideFirst(w, delim, at - |c|, c, pos);
    }
  }

  lemma InsideFirst(w: string, delim: string, at: nat, content: string, pos: nat)
    requires Inside(w, delim, at, content, pos)
    ensures content != "" ==> w[pos - |content|] == content[0]
  {
  }

  lemma LastOccurs(items: seq<Part>, boundary: string)
    requires items != []
    ensures OccursAt(Serialize(items, boundary), Delimiter(boundary), DelimiterAt(items, |items| - 1, boundary))
    ensures |Serialize(items, boundary)| == DelimiterAt(items, |items| - 1, boundary) + |Delimiter(boundary)| + 4
  {
    var w, at := Serialize(items, boundary), DelimiterAt(items, |items| - 1, boundary);
    LastDelimiter(items, boundary);
    CutPrefix(w, at, Delimiter(boundary), DASH + CRLF);
  }

  lemma LateReportsNot(t: Snapshot, pos: nat, items: seq<Part>, boundary: string, callbacks: Callbacks)
    requires Form(items, boundary, callbacks) && Lost(t, "", pos, items, boundary)
    requires t.state.Body? ==> |t.rest| <= |Delimiter(boundary)|
    ensures Parts(t.log) != items
  {
    if Parts(t.log) == items && Late(t, "", pos, items, boundary) {
      LastIsNotInside(items, pos, boundary);
    }
  }

  // ---------- opening lines ----------

  /** Before the opening line has been seen, a chunk without all of it is thrown away. */
  lemma OpeningDiscarded(c: string, boundary: string, callbacks: Callbacks)
    requires !Contains(c, OpeningLine(boundary))
    ensures Feed(START, c, boundary, callbacks) == (true, START)
  {
    var open := OpeningLine(boundary);
    FindContains(c, open);
    assert "" + c == c;
    if c != "" {
      assert c[|c|..] == "";
      assert Step(START.(rest := c), boundary, callbacks) == Return(true, START);
    } else {
      assert START.(rest := c) == START;
    }
  }

  /** An opening line that does not arrive whole is lost, and with it the first byte of the text. */
  lemma {:induction false} LostOpening(chunks: seq<string>, boundary: string, callbacks: Callbacks)
      returns (more: seq<string>)
    requires Flatten(chunks) != "" && !OpensWhole(chunks, |OpeningLine(boundary)|)
    ensures FeedAll(START, chunks, boundary, callbacks) == FeedAll(START, more, boundary, callbacks)
    ensures var n := |Flatten(chunks)| - |Flatten(more)|; n >= 1 && Flatten(more) == Flatten(chunks)[n..]
    decreases |chunks|
  {
    var c, cs := chunks[0], chunks[1..];
    forall i ensures !OccursAt(c, OpeningLine(boundary), i) { }
    OpeningDiscarded(c, boundary, callbacks);
    if c == "" {
      more := LostOpening(cs, boundary, callbacks);
    } else {
      more := cs;
    }
  }

  lemma LateOpening(items: seq<Part>, chunks: seq<string>, boundary: string, callbacks: Callbacks)
    requires Form(items, boundary, callbacks)
    requires Flatten(chunks) == Serialize(items, boundary) && !OpensWhole(chunks, |OpeningLine(boundary)|)
    ensures !Reports(items, chunks, boundary, callbacks)
  {
    SerializeTail(items, 0, boundary);
    hide Serialize, FeedAll, OpensWhole, OpeningLine, Form, Lost;
    var more := LostOpening(chunks, boundary, callbacks);
    var pos := |Serialize(items, boundary)| - |Flatten(more)|;
    assert At(Serialize(items, boundary), pos, "", Flatten(more)) by {
      assert "" + Flatten(more) == Flatten(more);
    }
    LateInitial(START, Flatten(more), pos, items, boundary);
    var next := FeedAllLate(START, more, pos, items, boundary, callbacks);
    var (ok, t) := FeedAll(START, more, boundary, callbacks);
    if ok {
      LateReportsNot(t, next, items, boundary, callbacks);
    }
  }

  /** Which forms come back, exactly: one whose header lines are within the parser's limit is reported if and only if
      the first chunk that is not empty holds the whole opening line and every item is faithful. */
  lemma FormExactly(items: seq<Part>, chunks: seq<string>, boundary: string, callbacks: Callbacks)
    requires Accepting(callbacks) && ValidBoundary(boundary) && items != []
    requires forall k :: 0 <= k < |items| ==> LinesWithin(items[k].file)
    requires Flatten(chunks) == Serialize(items, boundary)
    ensures Reports(items, chunks, boundary, callbacks)
       <==> OpensWhole(chunks, |OpeningLine(boundary)|)
            && forall k :: 0 <= k < |items| ==> Faithful(items[k], boundary)
  {
    if OpensWhole(chunks, |OpeningLine(boundary)|) {
      RoundTripExactly(items, chunks, boundary, callbacks);
    } else if AllSealed(items, Delimiter(boundary)) {
      LateOpening(items, chunks, boundary, callbacks);
    } else {
      ReportsSound(chunks, boundary, callbacks);
    }
  }

  /** Where the input may be cut, exactly: a form of items the parser can give back is reported if and only if the
      first chunk that is not empty holds the whole opening line. */
  lemma OpeningExactly(items: seq<Part>, chunks: seq<string>, boundary: string, callbacks: Callbacks)
    requires Accepting(callbacks) && ValidBoundary(boundary) && items != []
    requires forall k :: 0 <= k < |items| ==> Carried(items[k], boundary)
    requires Flatten(chunks) == Serialize(items, boundary)
    ensures Reports(items, chunks, boundary, callbacks) <==> OpensWhole(chunks, |OpeningLine(boundary)|)
  {
    FormExactly(items, chunks, boundary, callbacks);
  }
}
