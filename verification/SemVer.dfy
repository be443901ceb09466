/** Semantic version strings: the textual comparison the program uses, and the precedence it computes
    (section 11 of Semantic Versioning 2.0.0). */
module SemVer {
  import opened Text

  function Sign(a: int, b: int): (r: int)
    ensures -1 <= r <= 1
  {
    if a < b then -1 else if a > b then 1 else 0
  }

  /** Byte-wise comparison of two strings. */
  function CompareText(a: string, b: string): (r: int)
    ensures -1 <= r <= 1
    decreases |a|
  {
    if a == "" then (if b == "" then 0 else -1)
    else if b == "" then 1
    else if a[0] != b[0] then Sign(a[0] as int, b[0] as int)
    else CompareText(a[1..], b[1..])
  }

  // ---------- parsing ----------

  predicate IsDigit(c: char) { '0' <= c <= '9' }

  predicate IsIdentChar(c: char) { 'A' <= c <= 'Z' || 'a' <= c <= 'z' || IsDigit(c) || c == '-' }

  predicate IsNum(s: string) {
    forall i :: 0 <= i < |s| ==> IsDigit(s[i])
  }

  /** A decimal number without extra leading zeros. */
  predicate IsInt(s: string) {
    s != "" && IsNum(s) && (|s| > 1 ==> s[0] != '0')
  }

  function DigitsEnd(s: string, i: nat): (n: nat)
    requires i <= |s|
    ensures i <= n <= |s|
    ensures forall k :: i <= k < n ==> IsDigit(s[k])
    decreases |s| - i
  {
    if i < |s| && IsDigit(s[i]) then DigitsEnd(s, i + 1) else i
  }

  function ParseInt(v: string): (r: Option<(string, string)>)
    ensures r.Some? ==> IsInt(r.value.0)
  {
    if v == "" || !IsDigit(v[0]) then None
    else
      var n := DigitsEnd(v, 1);
      if v[0] == '0' && n != 1 then None else Some((v[..n], v[n..]))
  }

  function SegmentEnd(s: string, i: nat): (n: nat)
    requires i <= |s|
    ensures i <= n <= |s| && (n < |s| ==> s[n] == '.')
    decreases |s| - i
  {
    if i < |s| && s[i] != '.' then SegmentEnd(s, i + 1) else i
  }

  /** The identifiers of a suffix, each behind a separator. */
  function Idents(s: string): seq<string>
    decreases |s|
  {
    if s == "" then [] else var n := SegmentEnd(s, 1); [s[1..n]] + Idents(s[n..])
  }

  predicate GoodIdent(d: string) {
    d != "" && (forall i :: 0 <= i < |d| ==> IsIdentChar(d[i])) && (IsNum(d) ==> IsInt(d))
  }

  predicate GoodPre(s: string) {
    s != "" && s[0] == '-' && forall i :: 0 <= i < |Idents(s)| ==> GoodIdent(Idents(s)[i])
  }

  predicate GoodBuild(s: string) {
    s != "" && s[0] == '+'
    && forall i :: 0 <= i < |Idents(s)| ==>
         Idents(s)[i] != "" && forall k :: 0 <= k < |Idents(s)[i]| ==> IsIdentChar(Idents(s)[i][k])
  }

  datatype Parsed = Parsed(major: string, minor: string, patch: string, prerelease: string)

  function SeekPlus(s: string, i: nat): (n: nat)
    requires i <= |s|
    ensures i <= n <= |s|
    decreases |s| - i
  {
    if i < |s| && s[i] != '+' then SeekPlus(s, i + 1) else i
  }

  /** The prerelease and build suffixes; the prerelease is returned. */
  function ParseSuffix(v: string): (r: Option<string>)
    ensures r.Some? ==> r.value == "" || GoodPre(r.value)
  {
    var pre := if v != "" && v[0] == '-' then v[..SeekPlus(v, 0)] else "";
    var rest := v[|pre|..];
    if pre != "" && !GoodPre(pre) then None
    else if rest != "" && !GoodBuild(rest) then None
    else Some(pre)
  }

  function ParsePatch(major: string, minor: string, v: string): Option<Parsed> {
    match ParseInt(v)
    case None => None
    case Some((patch, rest)) =>
      match ParseSuffix(rest)
      case None => None
      case Some(pre) => Some(Parsed(major, minor, patch, pre))
  }

  function ParseMinor(major: string, v: string): Option<Parsed> {
    match ParseInt(v)
    case None => None
    case Some((minor, rest)) =>
      if rest == "" then Some(Parsed(major, minor, "0", ""))
      else if rest[0] != '.' then None
      else ParsePatch(major, minor, rest[1..])
  }

  function Parse(v: string): (r: Option<Parsed>)
    ensures r.Some? ==> ValidParts(r.value)
  {
    if v == "" || v[0] != 'v' then None
    else
      match ParseInt(v[1..])
      case None => None
      case Some((major, rest)) =>
        if rest == "" then Some(Parsed(major, "0", "0", ""))
        else if rest[0] != '.' then None
        else ParseMinor(major, rest[1..])
  }

  predicate ValidParts(p: Parsed) {
    IsInt(p.major) && IsInt(p.minor) && IsInt(p.patch) && (p.prerelease == "" || GoodPre(p.prerelease))
  }

  predicate IsValid(v: string) { Parse(v).Some? }

  // ---------- comparing text ----------

  function CompareInt(x: string, y: string): int {
    if x == y then 0
    else if |x| < |y| then -1
    else if |x| > |y| then 1
    else if CompareText(x, y) < 0 then -1
    else 1
  }

  function CompareIdent(dx: string, dy: string): int {
    if IsNum(dx) != IsNum(dy) then (if IsNum(dx) then -1 else 1)
    else if IsNum(dx) then CompareInt(dx, dy)
    else if CompareText(dx, dy) < 0 then -1
    else 1
  }

  /** The loop over the identifiers of two suffixes. */
  function CompareRest(x: string, y: string): int
    decreases |x|
  {
    if x == "" || y == "" then (if x == "" then -1 else 1)
    else
      var m, n := SegmentEnd(x, 1), SegmentEnd(y, 1);
      if x[1..m] != y[1..n] then CompareIdent(x[1..m], y[1..n]) else CompareRest(x[m..], y[n..])
  }

  function ComparePrerelease(x: string, y: string): int {
    if x == y then 0 else if x == "" then 1 else if y == "" then -1 else CompareRest(x, y)
  }

  function CompareParsed(p: Parsed, q: Parsed): int {
    var a, b, c := CompareInt(p.major, q.major), CompareInt(p.minor, q.minor), CompareInt(p.patch, q.patch);
    if a != 0 then a else if b != 0 then b else if c != 0 then c else ComparePrerelease(p.prerelease, q.prerelease)
  }

  /** An invalid version is less than a valid one. */
  function Compare(v: string, w: string): int {
    var p, q := Parse(v), Parse(w);
    if p.None? then (if q.None? then 0 else -1)
    else if q.None? then 1
    else CompareParsed(p.value, q.value)
  }

  // ---------- precedence ----------

  datatype Ident = Num(value: nat) | Alpha(text: string)

  datatype Version = Version(major: nat, minor: nat, patch: nat, prerelease: seq<Ident>)

  function IdentOrder(a: Ident, b: Ident): (r: int)
    ensures -1 <= r <= 1
  {
    match (a, b)
    case (Num(x), Num(y)) => Sign(x, y)
    case (Num(_), Alpha(_)) => -1
    case (Alpha(_), Num(_)) => 1
    case (Alpha(x), Alpha(y)) => CompareText(x, y)
  }

  /** Identifiers from left to right; when all of one list are equal, the longer list is higher. */
  function ListOrder(a: seq<Ident>, b: seq<Ident>): (r: int)
    ensures -1 <= r <= 1
    decreases |a|
  {
    if a == [] then (if b == [] then 0 else -1)
    else if b == [] then 1
    else
      var c := IdentOrder(a[0], b[0]);
      if c != 0 then c else ListOrder(a[1..], b[1..])
  }

  /** A version without prerelease is higher than one with. */
  function PreOrder(a: seq<Ident>, b: seq<Ident>): (r: int)
    ensures -1 <= r <= 1
  {
    if a == [] then (if b == [] then 0 else 1) else if b == [] then -1 else ListOrder(a, b)
  }

  function Precedence(a: Version, b: Version): (r: int)
    ensures -1 <= r <= 1
  {
    if a.major != b.major then Sign(a.major, b.major)
    else if a.minor != b.minor then Sign(a.minor, b.minor)
    else if a.patch != b.patch then Sign(a.patch, b.patch)
    else PreOrder(a.prerelease, b.prerelease)
  }

  // ---------- numbers ----------

  function Pow10(n: nat): (p: nat)
    ensures p > 0
  {
    if n == 0 then 1 else 10 * Pow10(n - 1)
  }

  function DigitOf(c: char): (d: nat)
    requires IsDigit(c)
    ensures d < 10
  {
    c as int - '0' as int
  }

  function Value(s: string): nat
    requires IsNum(s)
  {
    if s == "" then 0 else DigitOf(s[0]) * Pow10(|s| - 1) + Value(s[1..])
  }

  lemma TimesBetween(d: nat, e: nat, p: nat)
    requires d < e
    ensures d * p + p <= e * p
  {
    assert e * p == d * p + (e - d) * p;
    assert (e - d) * p >= p by { OneTimes(e - d, p); }
  }

  lemma OneTimes(k: nat, p: nat)
    requires k >= 1
    ensures k * p >= p
  {
    assert k * p == (k - 1) * p + p;
  }

  lemma {:induction false} ValueBound(s: string)
    requires IsNum(s)
    ensures Value(s) < Pow10(|s|)
  {
    if s != "" {
      ValueBound(s[1..]);
      TimesBetween(DigitOf(s[0]), 10, Pow10(|s| - 1));
    }
  }

  /** Numbers of equal length compare like their texts. */
  lemma {:induction false} SameLength(x: string, y: string)
    requires IsNum(x) && IsNum(y) && |x| == |y|
    ensures CompareText(x, y) == Sign(Value(x), Value(y))
  {
    if x != "" {
      var p := Pow10(|x| - 1);
      ValueBound(x[1..]);
      ValueBound(y[1..]);
      var d, e := DigitOf(x[0]), DigitOf(y[0]);
      if d < e {
        TimesBetween(d, e, p);
      } else if e < d {
        TimesBetween(e, d, p);
      } else {
        SameLength(x[1..], y[1..]);
      }
    }
  }

  lemma {:induction false} PowGrows(m: nat, n: nat)
    requires m <= n
    ensures Pow10(m) <= Pow10(n)
  {
    if m < n {
      PowGrows(m, n - 1);
    }
  }

  /** Without leading zeros the shorter number is the smaller. */
  lemma ShorterIsLess(x: string, y: string)
    requires IsInt(x) && IsInt(y) && |x| < |y|
    ensures Value(x) < Value(y)
  {
    ValueBound(x);
    PowGrows(|x|, |y| - 1);
    OneTimes(DigitOf(y[0]), Pow10(|y| - 1));
  }

  lemma {:induction false} TextZero(a: string, b: string)
    ensures CompareText(a, b) == 0 <==> a == b
  {
    if a != "" && b != "" && a[0] == b[0] {
      TextZero(a[1..], b[1..]);
      assert a == [a[0]] + a[1..] && b == [b[0]] + b[1..];
    }
  }

  /** Comparing lengths, then texts, compares the numbers. */
  lemma CompareIntIsValue(x: string, y: string)
    requires IsInt(x) && IsInt(y)
    ensures CompareInt(x, y) == Sign(Value(x), Value(y))
  {
    TextZero(x, y);
    if |x| < |y| {
      ShorterIsLess(x, y);
    } else if |y| < |x| {
      ShorterIsLess(y, x);
    } else {
      SameLength(x, y);
    }
  }

  // ---------- the text comparison computes the precedence ----------

  function IdentOf(d: string): Ident {
    if IsNum(d) then Num(Value(d)) else Alpha(d)
  }

  function IdentsOf(ds: seq<string>): (r: seq<Ident>)
    ensures |r| == |ds|
  {
    if ds == [] then [] else [IdentOf(ds[0])] + IdentsOf(ds[1..])
  }

  /** What a parsed version means. */
  function Meaning(p: Parsed): Version
    requires ValidParts(p)
  {
    Version(Value(p.major), Value(p.minor), Value(p.patch), IdentsOf(Idents(p.prerelease)))
  }

  lemma CompareIdentIs(dx: string, dy: string)
    requires GoodIdent(dx) && GoodIdent(dy) && dx != dy
    ensures CompareIdent(dx, dy) == IdentOrder(IdentOf(dx), IdentOf(dy)) != 0
  {
    TextZero(dx, dy);
    if IsNum(dx) && IsNum(dy) {
      CompareIntIsValue(dx, dy);
    }
  }

  predicate AllGood(ds: seq<string>) {
    forall i :: 0 <= i < |ds| ==> GoodIdent(ds[i])
  }

  lemma {:induction false} IdentsStep(s: string)
    requires s != ""
    ensures var n := SegmentEnd(s, 1);
            Idents(s) == [s[1..n]] + Idents(s[n..]) && Idents(s)[1..] == Idents(s[n..])
  {
  }

  lemma IdentOrderSame(a: Ident)
    ensures IdentOrder(a, a) == 0
  {
    if a.Alpha? {
      TextZero(a.text, a.text);
    }
  }

  /** Different suffixes that agree on their first identifier differ behind it. */
  lemma DifferBehind(x: string, y: string, m: nat, n: nat)
    requires 1 <= m <= |x| && 1 <= n <= |y| && x != y && x[0] == y[0] && x[1..m] == y[1..n]
    ensures x[m..] != y[n..]
  {
    assert x == [x[0]] + x[1..m] + x[m..] && y == [y[0]] + y[1..n] + y[n..];
  }

  lemma {:induction false} CompareRestIs(x: string, y: string)
    requires AllGood(Idents(x)) && AllGood(Idents(y)) && x != y
    requires x != "" && y != "" ==> x[0] == y[0]
    ensures CompareRest(x, y) == ListOrder(IdentsOf(Idents(x)), IdentsOf(Idents(y)))
    decreases |x|
  {
    if x != "" && y != "" {
      var m, n := SegmentEnd(x, 1), SegmentEnd(y, 1);
      RestStep(x, y, m, n);
      if x[1..m] == y[1..n] {
        DifferBehind(x, y, m, n);
        CompareRestIs(x[m..], y[n..]);
      }
    }
  }

  /** One identifier of each suffix. */
  lemma RestStep(x: string, y: string, m: nat, n: nat)
    requires x != "" && y != "" && m == SegmentEnd(x, 1) && n == SegmentEnd(y, 1)
    requires AllGood(Idents(x)) && AllGood(Idents(y))
    ensures AllGood(Idents(x[m..])) && AllGood(Idents(y[n..]))
    ensures ListOrder(IdentsOf(Idents(x)), IdentsOf(Idents(y)))
         == if x[1..m] != y[1..n] then CompareIdent(x[1..m], y[1..n])
            else ListOrder(IdentsOf(Idents(x[m..])), IdentsOf(Idents(y[n..])))
  {
    IdentsStep(x);
    IdentsStep(y);
    var a, b := Idents(x), Idents(y);
    assert a[0] == x[1..m] && b[0] == y[1..n];
    assert AllGood(a[1..]) && AllGood(b[1..]);
    if a[0] != b[0] {
      CompareIdentIs(a[0], b[0]);
    } else {
      IdentOrderSame(IdentOf(a[0]));
    }
  }

  lemma ComparePreIs(x: string, y: string)
    requires x == "" || GoodPre(x)
    requires y == "" || GoodPre(y)
    ensures ComparePrerelease(x, y) == PreOrder(IdentsOf(Idents(x)), IdentsOf(Idents(y)))
  {
    if x == y {
      ListOrderSame(IdentsOf(Idents(x)));
    } else if x != "" && y != "" {
      CompareRestIs(x, y);
    }
  }

  lemma {:induction false} ListOrderSame(a: seq<Ident>)
    ensures ListOrder(a, a) == 0
  {
    if a != [] {
      IdentOrderSame(a[0]);
      ListOrderSame(a[1..]);
    }
  }

  /** On valid versions the textual comparison is the precedence of what they mean. */
  lemma CompareIsPrecedence(v: string, w: string)
    requires IsValid(v) && IsValid(w)
    ensures Compare(v, w) == Precedence(Meaning(Parse(v).value), Meaning(Parse(w).value))
  {
    var p, q := Parse(v).value, Parse(w).value;
    CompareIntIsValue(p.major, q.major);
    CompareIntIsValue(p.minor, q.minor);
    CompareIntIsValue(p.patch, q.patch);
    ComparePreIs(p.prerelease, q.prerelease);
  }

  // ---------- a total preorder ----------

  /** `ac` is what transitivity makes of `ab` and `bc`. */
  predicate Chains(ab: int, bc: int, ac: int) {
    ab <= 0 && bc <= 0 ==> ac <= 0 && (ac == 0 <==> ab == 0 && bc == 0)
  }

  lemma {:induction false} TextLaws(a: string, b: string, c: string)
    ensures CompareText(a, b) == -CompareText(b, a)
    ensures Chains(CompareText(a, b), CompareText(b, c), CompareText(a, c))
    decreases |a| + |b|
  {
    if a != "" && b != "" && a[0] == b[0] {
      TextLaws(a[1..], b[1..], if c != "" then c[1..] else "");
    }
    TextZero(a, b);
    TextZero(b, c);
  }

  lemma IdentLaws(a: Ident, b: Ident, c: Ident)
    ensures IdentOrder(a, b) == -IdentOrder(b, a)
    ensures Chains(IdentOrder(a, b), IdentOrder(b, c), IdentOrder(a, c))
    ensures IdentOrder(a, b) == 0 <==> a == b
  {
    if a.Alpha? && b.Alpha? {
      TextZero(a.text, b.text);
      TextLaws(a.text, b.text, if c.Alpha? then c.text else "");
    }
  }

  lemma {:induction false} ListLaws(a: seq<Ident>, b: seq<Ident>, c: seq<Ident>)
    ensures ListOrder(a, b) == -ListOrder(b, a)
    ensures Chains(ListOrder(a, b), ListOrder(b, c), ListOrder(a, c))
    decreases |a| + |b|
  {
    if a != [] && b != [] {
      var tail := if c != [] then c[1..] else [];
      ListLaws(a[1..], b[1..], tail);
      IdentLaws(a[0], b[0], if c != [] then c[0] else Num(0));
      if c != [] {
        IdentLaws(b[0], c[0], a[0]);
        IdentLaws(a[0], c[0], b[0]);
      }
    }
  }

  lemma PreLaws(a: seq<Ident>, b: seq<Ident>, c: seq<Ident>)
    ensures PreOrder(a, b) == -PreOrder(b, a)
    ensures Chains(PreOrder(a, b), PreOrder(b, c), PreOrder(a, c))
  {
    ListLaws(a, b, c);
  }

  lemma PrecedenceLaws(a: Version, b: Version, c: Version)
    ensures Precedence(a, b) == -Precedence(b, a)
    ensures Chains(Precedence(a, b), Precedence(b, c), Precedence(a, c))
  {
    PreLaws(a.prerelease, b.prerelease, c.prerelease);
  }

  /** Comparison is a total preorder on all strings, invalid ones included. */
  lemma CompareLaws(u: string, v: string, w: string)
    ensures Compare(u, v) == -Compare(v, u) && -1 <= Compare(u, v) <= 1
    ensures Chains(Compare(u, v), Compare(v, w), Compare(u, w))
  {
    if IsValid(u) && IsValid(v) {
      CompareIsPrecedence(u, v);
      CompareIsPrecedence(v, u);
      PrecedenceLaws(Meaning(Parse(u).value), Meaning(Parse(v).value),
        Meaning(Parse(if IsValid(w) then w else u).value));
      if IsValid(w) {
        CompareIsPrecedence(v, w);
        CompareIsPrecedence(u, w);
      }
    }
  }

  lemma InvalidBelow(v: string, w: string)
    requires IsValid(v) && !IsValid(w)
    ensures Compare(v, w) > 0
  {
  }
}
