/** Version texts: which strings are versions, what number and identifiers each stands for, and how two of them
    compare, in terms of these numbers and identifiers alone (section 11 of Semantic Versioning 2.0.0). */
module SemVerText {
  import opened Text
  import opened SemVer

  // ---------- texts ----------

  /** Decimal text of a number. */
  function Decimal(n: nat): (s: string)
    ensures s != ""
  {
    if n < 10 then [('0' as int + n) as char] else Decimal(n / 10) + [('0' as int + n % 10) as char]
  }

  function IdentText(d: Ident): string {
    match d
    case Num(n) => Decimal(n)
    case Alpha(t) => t
  }

  function IdentTexts(ds: seq<Ident>): (r: seq<string>)
    ensures |r| == |ds| && forall i :: 0 <= i < |ds| ==> r[i] == IdentText(ds[i])
  {
    if ds == [] then [] else [IdentText(ds[0])] + IdentTexts(ds[1..])
  }

  /** The texts behind `sep`, with dots between them. */
  function Dotted(sep: char, ts: seq<string>): string
    decreases |ts|
  {
    if ts == [] then "" else [sep] + ts[0] + Dotted('.', ts[1..])
  }

  /** A version as it may be written: one to three numbers, and behind the third prerelease and build identifiers. */
  datatype Written = Written(numbers: seq<nat>, prerelease: seq<Ident>, build: seq<string>)

  predicate IdentChars(t: string) {
    t != "" && forall i :: 0 <= i < |t| ==> IsIdentChar(t[i])
  }

  predicate Fits(w: Written) {
    && 1 <= |w.numbers| <= 3
    && (w.prerelease != [] || w.build != [] ==> |w.numbers| == 3)
    && (forall i :: 0 <= i < |w.prerelease| && w.prerelease[i].Alpha? ==>
          IdentChars(w.prerelease[i].text) && !IsNum(w.prerelease[i].text))
    && forall i :: 0 <= i < |w.build| ==> IdentChars(w.build[i])
  }

  function Suffix(w: Written): string {
    Dotted('-', IdentTexts(w.prerelease)) + Dotted('+', w.build)
  }

  function PatchText(w: Written): string {
    if |w.numbers| <= 2 then "" else "." + (Decimal(w.numbers[2]) + Suffix(w))
  }

  function MinorText(w: Written): string {
    if |w.numbers| <= 1 then "" else "." + (Decimal(w.numbers[1]) + PatchText(w))
  }

  function Render(w: Written): string
    requires Fits(w)
  {
    "v" + (Decimal(w.numbers[0]) + MinorText(w))
  }

  /** A number that is not written is zero. */
  function Number(w: Written, i: nat): nat {
    if i < |w.numbers| then w.numbers[i] else 0
  }

  // ---------- numbers ----------

  lemma {:induction false} ValueSnoc(s: string, c: char)
    requires IsNum(s) && IsDigit(c)
    ensures IsNum(s + [c]) && Value(s + [c]) == 10 * Value(s) + DigitOf(c)
  {
    var t := s + [c];
    if s == "" {
      assert t == [c] && t[1..] == "";
      assert Pow10(0) == 1 && Value("") == 0;
    } else {
      assert t[1..] == s[1..] + [c];
      ValueSnoc(s[1..], c);
      var d, p := DigitOf(s[0]), Pow10(|s| - 1);
      assert Pow10(|t| - 1) == 10 * p;
      Tens(d, p);
      assert Value(t) == d * Pow10(|t| - 1) + Value(t[1..]);
      assert Value(s) == d * p + Value(s[1..]);
    }
  }

  lemma Tens(d: nat, p: nat)
    ensures d * (10 * p) == 10 * (d * p)
  {
  }

  lemma {:induction false} DecimalIs(n: nat)
    ensures IsInt(Decimal(n)) && Value(Decimal(n)) == n
    ensures n > 0 ==> Decimal(n)[0] != '0'
  {
    if n < 10 {
      ValueSnoc("", Decimal(n)[0]);
      assert "" + Decimal(n) == Decimal(n);
    } else {
      DecimalIs(n / 10);
      ValueSnoc(Decimal(n / 10), ('0' as int + n % 10) as char);
    }
  }

  lemma DecimalOfValue(s: string)
    requires IsInt(s)
    ensures Decimal(Value(s)) == s
  {
    DecimalIs(Value(s));
    CompareIntIsValue(Decimal(Value(s)), s);
  }

  lemma {:induction false} DigitsEndIs(d: string, rest: string, i: nat)
    requires IsNum(d) && i <= |d| && (rest == "" || !IsDigit(rest[0]))
    ensures DigitsEnd(d + rest, i) == |d|
    decreases |d| - i
  {
    if i < |d| {
      assert (d + rest)[i] == d[i];
      DigitsEndIs(d, rest, i + 1);
    } else if rest != "" {
      assert (d + rest)[i] == rest[0];
    }
  }

  /** A number is read up to the first byte that is no digit. */
  lemma ParseIntIs(d: string, rest: string)
    requires IsInt(d) && (rest == "" || !IsDigit(rest[0]))
    ensures ParseInt(d + rest) == Some((d, rest))
  {
    var v := d + rest;
    DigitsEndIs(d, rest, 1);
    assert v[0] == d[0] && v[..|d|] == d && v[|d|..] == rest;
  }

  lemma ParseIntSplits(v: string)
    requires ParseInt(v).Some?
    ensures v == ParseInt(v).value.0 + ParseInt(v).value.1
  {
  }

  // ---------- identifiers ----------

  lemma {:induction false} SegmentEndIs(s: string, i: nat, n: nat)
    requires i <= n <= |s| && (n < |s| ==> s[n] == '.') && forall k :: i <= k < n ==> s[k] != '.'
    ensures SegmentEnd(s, i) == n
    decreases n - i
  {
    if i < n {
      SegmentEndIs(s, i + 1, n);
    }
  }

  predicate NoDots(ts: seq<string>) {
    forall i :: 0 <= i < |ts| ==> Lacks(ts[i], '.')
  }

  lemma {:induction false} IdentsOfDotted(sep: char, ts: seq<string>)
    requires NoDots(ts)
    ensures Idents(Dotted(sep, ts)) == ts
    decreases |ts|
  {
    if ts != [] {
      var more := Dotted('.', ts[1..]);
      var s := [sep] + ts[0] + more;
      var n := 1 + |ts[0]|;
      assert s[1..n] == ts[0] && s[n..] == more;
      assert forall k :: 1 <= k < n ==> s[k] == ts[0][k - 1];
      SegmentEndIs(s, 1, n);
      IdentsOfDotted('.', ts[1..]);
      assert ts == [ts[0]] + ts[1..];
    }
  }

  /** The first identifier of a suffix, and the rest. */
  lemma FirstIdent(s: string) returns (first: string, rest: string)
    requires s != ""
    ensures s == [s[0]] + first + rest && |rest| < |s| && Lacks(first, '.') && (rest == "" || rest[0] == '.')
    ensures Idents(s) == [first] + Idents(rest)
  {
    SegmentHasNoDot(s, 1);
    IdentsStep(s);
    var n := SegmentEnd(s, 1);
    hide Idents, SegmentEnd;
    first, rest := s[1..n], s[n..];
    CutFirst(s, n);
  }

  lemma CutFirst(s: string, n: nat)
    requires 1 <= n <= |s|
    ensures s == [s[0]] + s[1..n] + s[n..]
  {
  }

  lemma {:induction false} DottedOfIdents(s: string)
    requires s != ""
    ensures Dotted(s[0], Idents(s)) == s && NoDots(Idents(s)) && Idents(s) != []
    decreases |s|
  {
    hide Idents, Dotted, NoDots, Lacks;
    var first, rest := FirstIdent(s);
    if rest == "" {
      IdentsOfNone();
    } else {
      DottedOfIdents(rest);
    }
    DottedStep(s[0], first, Idents(rest));
  }

  lemma IdentsOfNone()
    ensures Idents("") == [] && Dotted('.', []) == "" && NoDots([])
  {
  }

  lemma DottedStep(sep: char, first: string, more: seq<string>)
    ensures Dotted(sep, [first] + more) == [sep] + first + Dotted('.', more)
    ensures NoDots(more) && Lacks(first, '.') ==> NoDots([first] + more)
  {
    assert ([first] + more)[1..] == more;
  }

  lemma {:induction false} SegmentHasNoDot(s: string, i: nat)
    requires i <= |s|
    ensures forall k :: i <= k < SegmentEnd(s, i) ==> s[k] != '.'
    decreases |s| - i
  {
    if i < |s| && s[i] != '.' {
      SegmentHasNoDot(s, i + 1);
    }
  }

  lemma IdentGood(d: Ident)
    requires d.Alpha? ==> IdentChars(d.text) && !IsNum(d.text)
    ensures GoodIdent(IdentText(d)) && IdentOf(IdentText(d)) == d
    ensures Lacks(IdentText(d), '.') && Lacks(IdentText(d), '+')
  {
    if d.Num? {
      DecimalIs(d.value);
    }
  }

  lemma {:induction false} IdentsGood(ds: seq<Ident>)
    requires forall i :: 0 <= i < |ds| && ds[i].Alpha? ==> IdentChars(ds[i].text) && !IsNum(ds[i].text)
    ensures IdentsOf(IdentTexts(ds)) == ds && NoDots(IdentTexts(ds))
    ensures forall i :: 0 <= i < |ds| ==> GoodIdent(IdentTexts(ds)[i]) && Lacks(IdentTexts(ds)[i], '+')
  {
    if ds != [] {
      IdentGood(ds[0]);
      IdentsGood(ds[1..]);
      assert IdentTexts(ds)[1..] == IdentTexts(ds[1..]);
      assert ds == [ds[0]] + ds[1..];
    }
  }

  lemma {:induction false} DottedLacks(sep: char, ts: seq<string>, c: char)
    requires sep != c && c != '.' && forall i :: 0 <= i < |ts| ==> Lacks(ts[i], c)
    ensures Lacks(Dotted(sep, ts), c)
    decreases |ts|
  {
    if ts != [] {
      DottedLacks('.', ts[1..], c);
    }
  }

  // ---------- reading a version ----------

  lemma {:induction false} SeekPlusIs(a: string, b: string, i: nat)
    requires Lacks(a, '+') && i <= |a| && (b == "" || b[0] == '+')
    ensures SeekPlus(a + b, i) == |a|
    decreases |a| - i
  {
    if i < |a| {
      assert (a + b)[i] == a[i];
      SeekPlusIs(a, b, i + 1);
    } else if b != "" {
      assert (a + b)[i] == b[0];
    }
  }

  lemma PreIs(w: Written)
    requires Fits(w)
    ensures var pre := Dotted('-', IdentTexts(w.prerelease));
            && Idents(pre) == IdentTexts(w.prerelease)
            && Lacks(pre, '+')
            && (pre == "" || (GoodPre(pre) && pre[0] == '-'))
  {
    IdentsGood(w.prerelease);
    IdentsOfDotted('-', IdentTexts(w.prerelease));
    DottedLacks('-', IdentTexts(w.prerelease), '+');
  }

  lemma BuildIs(w: Written)
    requires Fits(w)
    ensures var build := Dotted('+', w.build); build == "" || (GoodBuild(build) && build[0] == '+')
  {
    assert NoDots(w.build);
    IdentsOfDotted('+', w.build);
  }

  lemma SuffixSplits(pre: string, build: string)
    requires Lacks(pre, '+') && (pre == "" || (GoodPre(pre) && pre[0] == '-'))
    requires build == "" || (GoodBuild(build) && build[0] == '+')
    ensures ParseSuffix(pre + build) == Some(pre)
    ensures pre + build == "" || !IsDigit((pre + build)[0])
  {
    hide GoodPre, GoodBuild;
    SeekPlusIs(pre, build, 0);
    assert (pre + build)[..|pre|] == pre && (pre + build)[|pre|..] == build;
    assert pre == "" ==> pre + build == build;
  }

  lemma SuffixIs(w: Written)
    requires Fits(w)
    ensures ParseSuffix(Suffix(w)) == Some(Dotted('-', IdentTexts(w.prerelease)))
    ensures Suffix(w) == "" || !IsDigit(Suffix(w)[0])
  {
    PreIs(w);
    BuildIs(w);
    SuffixSplits(Dotted('-', IdentTexts(w.prerelease)), Dotted('+', w.build));
  }

  /** The parts a written version is read as. */
  function PartsOf(w: Written): Parsed {
    Parsed(Decimal(Number(w, 0)), Decimal(Number(w, 1)), Decimal(Number(w, 2)), Dotted('-', IdentTexts(w.prerelease)))
  }

  lemma PatchRead(w: Written, major: string, minor: string)
    requires Fits(w) && |w.numbers| == 3
    ensures ParsePatch(major, minor, Decimal(w.numbers[2]) + Suffix(w))
         == Some(Parsed(major, minor, PartsOf(w).patch, PartsOf(w).prerelease))
  {
    DecimalIs(w.numbers[2]);
    SuffixIs(w);
    hide Decimal, Suffix, ParseInt, ParseSuffix, Fits;
    ParseIntIs(Decimal(w.numbers[2]), Suffix(w));
  }

  lemma BehindDot(d: string, more: string)
    ensures ("." + (d + more))[0] == '.' && !IsDigit('.') && ("." + (d + more))[1..] == d + more
  {
  }

  lemma MinorRead(w: Written, major: string)
    requires Fits(w) && |w.numbers| >= 2
    ensures ParseMinor(major, Decimal(w.numbers[1]) + PatchText(w))
         == Some(Parsed(major, PartsOf(w).minor, PartsOf(w).patch, PartsOf(w).prerelease))
  {
    DecimalIs(w.numbers[1]);
    ZeroIs();
    if |w.numbers| == 3 {
      BehindDot(Decimal(w.numbers[2]), Suffix(w));
      PatchRead(w, major, Decimal(w.numbers[1]));
    }
    hide Decimal, Suffix, ParseInt, ParsePatch, IsDigit;
    ParseIntIs(Decimal(w.numbers[1]), PatchText(w));
  }

  lemma AllRead(w: Written)
    requires Fits(w)
    ensures Parse(Render(w)) == Some(PartsOf(w))
  {
    DecimalIs(w.numbers[0]);
    ZeroIs();
    if |w.numbers| >= 2 {
      BehindDot(Decimal(w.numbers[1]), PatchText(w));
      MinorRead(w, Decimal(w.numbers[0]));
    }
    hide Decimal, PatchText, ParseInt, ParseMinor, IsDigit;
    ParseIntIs(Decimal(w.numbers[0]), MinorText(w));
    assert Render(w)[1..] == Decimal(w.numbers[0]) + MinorText(w);
  }

  /** What a written version stands for. */
  function Meant(w: Written): Version {
    Version(Number(w, 0), Number(w, 1), Number(w, 2), w.prerelease)
  }

  /** Every written version is valid and is read as its numbers and identifiers. */
  lemma ReadBack(w: Written)
    requires Fits(w)
    ensures Parse(Render(w)).Some? && Meaning(Parse(Render(w)).value) == Meant(w)
  {
    AllRead(w);
    PreIs(w);
    IdentsGood(w.prerelease);
    DecimalIs(Number(w, 0));
    DecimalIs(Number(w, 1));
    DecimalIs(Number(w, 2));
    hide Render, Parse, Decimal, Dotted;
  }

  lemma ZeroIs()
    ensures Decimal(0) == "0" && Dotted('-', IdentTexts([])) == ""
  {
  }

  // ---------- which texts are versions ----------

  lemma IdentBack(d: string)
    requires GoodIdent(d)
    ensures IdentText(IdentOf(d)) == d
    ensures IdentOf(d).Alpha? ==> IdentChars(IdentOf(d).text) && !IsNum(IdentOf(d).text)
  {
    if IsNum(d) {
      DecimalOfValue(d);
    }
  }

  predicate AlphasFit(is_: seq<Ident>) {
    forall i :: 0 <= i < |is_| && is_[i].Alpha? ==> IdentChars(is_[i].text) && !IsNum(is_[i].text)
  }

  lemma IdentsCons(d: string, ds: seq<string>)
    requires GoodIdent(d) && AlphasFit(IdentsOf(ds)) && IdentTexts(IdentsOf(ds)) == ds
    ensures AlphasFit(IdentsOf([d] + ds)) && IdentTexts(IdentsOf([d] + ds)) == [d] + ds
  {
    IdentBack(d);
    assert ([d] + ds)[1..] == ds;
    assert IdentsOf([d] + ds)[1..] == IdentsOf(ds);
    hide IdentText, IdentOf, IdentChars, IsNum;
  }

  lemma GoodFirst(ds: seq<string>)
    requires AllGood(ds) && ds != []
    ensures GoodIdent(ds[0]) && AllGood(ds[1..]) && ds == [ds[0]] + ds[1..]
  {
  }

  lemma {:induction false} IdentsBack(ds: seq<string>)
    requires AllGood(ds)
    ensures IdentTexts(IdentsOf(ds)) == ds && AlphasFit(IdentsOf(ds))
  {
    if ds != [] {
      hide IdentTexts, IdentsOf, AlphasFit, AllGood, GoodIdent;
      GoodFirst(ds);
      IdentsBack(ds[1..]);
      IdentsCons(ds[0], ds[1..]);
    }
  }

  lemma SuffixParts(v: string)
    requires ParseSuffix(v).Some?
    ensures var pre := ParseSuffix(v).value;
            && |pre| <= |v| && v == pre + v[|pre|..]
            && (pre == "" || (GoodPre(pre) && pre[0] == '-'))
            && (v[|pre|..] == "" || GoodBuild(v[|pre|..]))
  {
    hide GoodPre, GoodBuild;
    assert v == v[..SeekPlus(v, 0)] + v[SeekPlus(v, 0)..];
  }

  lemma SuffixBack(v: string, numbers: seq<nat>) returns (w: Written)
    requires ParseSuffix(v).Some? && |numbers| == 3
    ensures Fits(w) && w.numbers == numbers && Suffix(w) == v
  {
    SuffixParts(v);
    hide ParseSuffix, Decimal, Idents;
    var pre := ParseSuffix(v).value;
    var rest := v[|pre|..];
    if pre != "" {
      DottedOfIdents(pre);
    }
    if rest != "" {
      DottedOfIdents(rest);
    }
    IdentsBack(Idents(pre));
    w := Written(numbers, IdentsOf(Idents(pre)), Idents(rest));
  }

  lemma PatchWritten(major: string, minor: string, v: string, n0: nat, n1: nat) returns (w: Written)
    requires ParsePatch(major, minor, v).Some?
    ensures Fits(w) && |w.numbers| == 3 && w.numbers[0] == n0 && w.numbers[1] == n1
    ensures PatchText(w) == "." + v
  {
    var (patch, suffix) := ParseInt(v).value;
    ParseIntSplits(v);
    DecimalOfValue(patch);
    hide ParseInt, ParseSuffix, Decimal, Suffix, Fits;
    w := SuffixBack(suffix, [n0, n1, Value(patch)]);
  }

  lemma MinorWritten(major: string, v: string, n0: nat) returns (w: Written)
    requires ParseMinor(major, v).Some?
    ensures Fits(w) && |w.numbers| >= 2 && w.numbers[0] == n0 && MinorText(w) == "." + v
  {
    var (minor, rest) := ParseInt(v).value;
    ParseIntSplits(v);
    DecimalOfValue(minor);
    if rest == "" {
      w := Written([n0, Value(minor)], [], []);
    } else {
      assert rest == "." + rest[1..];
      hide ParseInt, ParsePatch, Decimal, PatchText, Fits;
      w := PatchWritten(major, minor, rest[1..], n0, Value(minor));
    }
  }

  /** Every version is a written one. */
  lemma WrittenBack(v: string) returns (w: Written)
    requires IsValid(v)
    ensures Fits(w) && Render(w) == v
  {
    var major, rest := MajorFront(v);
    DecimalOfValue(major);
    hide Parse, ParseMinor, Decimal, MinorText, ParseInt, Render, Fits, IsInt, Value;
    if rest == "" {
      w := Written([Value(major)], [], []);
      NoMore(w);
    } else {
      assert rest == "." + rest[1..];
      w := MinorWritten(major, rest[1..], Value(major));
    }
    RenderIs(w, major, rest);
  }

  lemma RenderIs(w: Written, major: string, rest: string)
    requires Fits(w) && Decimal(w.numbers[0]) == major && MinorText(w) == rest
    ensures Render(w) == "v" + (major + rest)
  {
  }

  lemma MajorFront(v: string) returns (major: string, rest: string)
    requires IsValid(v)
    ensures v == "v" + (major + rest) && IsInt(major)
    ensures rest == "" || (rest[0] == '.' && ParseMinor(major, rest[1..]).Some?)
  {
    hide ParseMinor, GoodPre, GoodIdent;
    var p := ParseInt(v[1..]).value;
    ParseIntSplits(v[1..]);
    hide IsInt;
    major, rest := p.0, p.1;
    assert v == "v" + v[1..];
  }

  lemma NoMore(w: Written)
    requires |w.numbers| == 1 && w.prerelease == [] && w.build == []
    ensures MinorText(w) == "" && Fits(w)
  {
  }

  /** Which strings are versions, exactly. */
  lemma ValidExactly(v: string)
    ensures IsValid(v) <==> exists w :: Fits(w) && Render(w) == v
  {
    if IsValid(v) {
      var w := WrittenBack(v);
    }
    forall w | Fits(w) && Render(w) == v ensures IsValid(v) {
      ReadBack(w);
    }
  }

  // ---------- comparing texts ----------

  /** Two written versions compare by the first number that differs, and by their prereleases if none does; builds do
      not matter. */
  lemma CompareWritten(x: Written, y: Written)
    requires Fits(x) && Fits(y)
    ensures Compare(Render(x), Render(y))
         == if Number(x, 0) != Number(y, 0) then (if Number(x, 0) < Number(y, 0) then -1 else 1)
            else if Number(x, 1) != Number(y, 1) then (if Number(x, 1) < Number(y, 1) then -1 else 1)
            else if Number(x, 2) != Number(y, 2) then (if Number(x, 2) < Number(y, 2) then -1 else 1)
            else PreOrder(x.prerelease, y.prerelease)
  {
    ReadBack(x);
    ReadBack(y);
    CompareIsPrecedence(Render(x), Render(y));
    hide Compare, Parse, Render, PreOrder, Fits;
  }

  /** Texts compare at the first byte that differs. */
  lemma {:induction false} TextAtFirst(p: string, c: char, a: string, d: char, b: string)
    requires c < d
    ensures CompareText(p + [c] + a, p + [d] + b) == -1
    decreases |p|
  {
    var x, y := p + [c] + a, p + [d] + b;
    if p != "" {
      var q := p[1..];
      assert x[1..] == q + [c] + a && y[1..] == q + [d] + b && x[0] == y[0] == p[0];
      TextAtFirst(q, c, a, d, b);
    }
  }

  lemma {:induction false} TextPrefix(p: string, a: string)
    requires a != ""
    ensures CompareText(p, p + a) == -1
    decreases |p|
  {
    if p != "" {
      assert (p + a)[1..] == p[1..] + a && (p + a)[0] == p[0];
      TextPrefix(p[1..], a);
    }
  }

  /** Lists of identifiers are ordered at the first one that differs, and a list that stops there is lower. */
  lemma {:induction false} ListAtFirst(p: seq<Ident>, i: Ident, a: seq<Ident>, j: Ident, b: seq<Ident>)
    requires i != j
    ensures ListOrder(p + [i] + a, p + [j] + b) == IdentOrder(i, j) && ListOrder(p, p + [i] + a) == -1
    decreases |p|
  {
    var x, y := p + [i] + a, p + [j] + b;
    if p == [] {
      IdentLaws(i, j, i);
    } else {
      var q := p[1..];
      assert x[1..] == q + [i] + a && y[1..] == q + [j] + b && x[0] == y[0] == p[0];
      IdentOrderSame(p[0]);
      ListAtFirst(q, i, a, j, b);
    }
  }

  /** How two identifiers that differ are ordered. */
  ghost predicate IdentBelow(i: Ident, j: Ident) {
    || (i.Num? && j.Num? && i.value < j.value)
    || (i.Num? && j.Alpha?)
    || (i.Alpha? && j.Alpha? && TextBelow(i.text, j.text))
  }

  /** ASCII order: at the first byte that differs, or as a proper prefix. */
  ghost predicate TextBelow(s: string, t: string) {
    || (exists n :: 0 <= n < |s| && n < |t| && s[..n] == t[..n] && s[n] < t[n])
    || (|s| < |t| && t[..|s|] == s)
  }

  lemma TextIsBelow(s: string, t: string)
    requires TextBelow(s, t)
    ensures CompareText(s, t) == -1
  {
    if |s| < |t| && t[..|s|] == s {
      assert t == s + t[|s|..];
      TextPrefix(s, t[|s|..]);
    } else {
      var n :| 0 <= n < |s| && n < |t| && s[..n] == t[..n] && s[n] < t[n];
      CutAt(s, n);
      CutAt(t, n);
      TextAtFirst(s[..n], s[n], s[n + 1..], t[n], t[n + 1..]);
    }
  }

  lemma CutAt<T>(s: seq<T>, n: nat)
    requires n < |s|
    ensures s == s[..n] + [s[n]] + s[n + 1..]
  {
  }

  /** A prerelease is lower if it comes first where the two differ, if it stops where the other goes on, and in any
      case than a release. */
  ghost predicate PreBelow(x: seq<Ident>, y: seq<Ident>) {
    || (x != [] && y == [])
    || (exists n :: 0 <= n < |x| && n < |y| && x[..n] == y[..n] && IdentBelow(x[n], y[n]))
    || (x != [] && |x| < |y| && y[..|x|] == x)
  }

  lemma IdentIsBelow(i: Ident, j: Ident)
    requires IdentBelow(i, j)
    ensures i != j && IdentOrder(i, j) == -1
  {
    if i.Alpha? && j.Alpha? {
      TextIsBelow(i.text, j.text);
      TextZero(i.text, j.text);
    }
  }

  lemma PreIsBelow(x: seq<Ident>, y: seq<Ident>)
    requires PreBelow(x, y)
    ensures PreOrder(x, y) == -1
  {
    if n: nat :| n < |x| && n < |y| && x[..n] == y[..n] && IdentBelow(x[n], y[n]) {
      IdentIsBelow(x[n], y[n]);
      CutAt(x, n);
      CutAt(y, n);
      ListAtFirst(x[..n], x[n], x[n + 1..], y[n], y[n + 1..]);
    } else if x != [] && y != [] {
      var i := y[|x|];
      assert y == x + [i] + y[|x| + 1..];
      ListAtFirst(x, i, y[|x| + 1..], if i == Num(0) then Num(1) else Num(0), []);
    }
  }

  // ---------- one of two different ones is lower ----------

  lemma {:induction false} FirstDifference<T>(x: seq<T>, y: seq<T>) returns (n: nat)
    ensures n <= |x| && n <= |y| && x[..n] == y[..n]
    ensures n == |x| || n == |y| || x[n] != y[n]
    decreases |x|
  {
    if x == [] || y == [] || x[0] != y[0] {
      n := 0;
    } else {
      var m := FirstDifference(x[1..], y[1..]);
      n := m + 1;
      assert x[..n] == [x[0]] + x[1..][..m] && y[..n] == [y[0]] + y[1..][..m];
    }
  }

  lemma TextTotal(s: string, t: string)
    requires s != t
    ensures TextBelow(s, t) || TextBelow(t, s)
  {
    var n := FirstDifference(s, t);
    assert s[..|s|] == s && t[..|t|] == t;
  }

  lemma IdentTotal(i: Ident, j: Ident)
    requires i != j
    ensures IdentBelow(i, j) || IdentBelow(j, i)
  {
    if i.Alpha? && j.Alpha? {
      TextTotal(i.text, j.text);
    }
  }

  lemma PreTotal(x: seq<Ident>, y: seq<Ident>)
    requires x != y
    ensures PreBelow(x, y) || PreBelow(y, x)
  {
    var n := FirstDifference(x, y);
    assert x[..|x|] == x && y[..|y|] == y;
    if n < |x| && n < |y| {
      IdentTotal(x[n], y[n]);
    }
  }

  /** Version precedence, on numbers and identifiers. */
  ghost predicate Below(x: Written, y: Written) {
    if Number(x, 0) != Number(y, 0) then Number(x, 0) < Number(y, 0)
    else if Number(x, 1) != Number(y, 1) then Number(x, 1) < Number(y, 1)
    else if Number(x, 2) != Number(y, 2) then Number(x, 2) < Number(y, 2)
    else PreBelow(x.prerelease, y.prerelease)
  }

  lemma BelowCompares(x: Written, y: Written)
    requires Fits(x) && Fits(y) && Below(x, y)
    ensures Compare(Render(x), Render(y)) < 0
  {
    CompareWritten(x, y);
    if Number(x, 0) == Number(y, 0) && Number(x, 1) == Number(y, 1) && Number(x, 2) == Number(y, 2) {
      PreIsBelow(x.prerelease, y.prerelease);
    }
  }

  /** The comparison of texts is version precedence, exactly. */
  lemma CompareExactly(x: Written, y: Written)
    requires Fits(x) && Fits(y)
    ensures Compare(Render(x), Render(y)) < 0 <==> Below(x, y)
    ensures Compare(Render(x), Render(y)) == 0 <==> Meant(x) == Meant(y)
  {
    hide Compare, Render, Fits, PreBelow;
    CompareLaws(Render(x), Render(y), Render(x));
    if Below(x, y) {
      BelowCompares(x, y);
    } else if Below(y, x) {
      BelowCompares(y, x);
    } else {
      if x.prerelease != y.prerelease {
        PreTotal(x.prerelease, y.prerelease);
      }
      CompareWritten(x, y);
      ListOrderSame(x.prerelease);
    }
    if Meant(x) == Meant(y) {
      CompareWritten(x, y);
      ListOrderSame(x.prerelease);
    }
  }
}
