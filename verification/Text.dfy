/** Byte strings as the HTTP code handles them: searching, blank trimming, case folding and splitting.
    A `char` stands for one byte of a `std::string`. */
module Text {

  datatype Option<+T> = None | Some(value: T)

  const CRLF: string := "\r\n"
  const DASH: string := "--"

  /** The longest header line the library reads. */
  const HEADER_MAX_LENGTH: nat := 8192

  lemma Associative<T>(a: seq<T>, b: seq<T>, c: seq<T>)
    ensures a + (b + c) == a + b + c
  {
  }

  lemma SamePrefix(f: string, a: string, b: string)
    ensures f + a == f + b <==> a == b
  {
    assert (f + a)[|f|..] == a && (f + b)[|f|..] == b;
  }

  // ---------- searching ----------

  predicate OccursAt(s: string, pat: string, i: int) {
    0 <= i && i + |pat| <= |s| && s[i..i + |pat|] == pat
  }

  function FindFrom(s: string, pat: string, from: nat): (r: nat)
    requires |pat| > 0 && from <= |s|
    ensures from <= r <= |s|
    ensures r < |s| ==> OccursAt(s, pat, r)
    ensures forall i :: from <= i < r ==> !OccursAt(s, pat, i)
    decreases |s| - from
  {
    if from == |s| then |s|
    else if OccursAt(s, pat, from) then from
    else FindFrom(s, pat, from + 1)
  }

  /** Least index at which `pat` occurs in `s`, or `|s|`. */
  function Find(s: string, pat: string): (r: nat)
    requires |pat| > 0
    ensures r <= |s|
    ensures r < |s| ==> OccursAt(s, pat, r)
    ensures forall i :: 0 <= i < r ==> !OccursAt(s, pat, i)
  {
    FindFrom(s, pat, 0)
  }

  ghost predicate Contains(s: string, pat: string) {
    exists i :: OccursAt(s, pat, i)
  }

  lemma FindContains(s: string, pat: string)
    requires |pat| > 0
    ensures Find(s, pat) < |s| <==> Contains(s, pat)
  {
    var r := Find(s, pat);
    if Contains(s, pat) {
      var i :| OccursAt(s, pat, i);
      assert i < |s|;
    }
  }

  lemma FindUnique(s: string, pat: string, r: nat)
    requires |pat| > 0 && OccursAt(s, pat, r)
    requires forall i :: 0 <= i < r ==> !OccursAt(s, pat, i)
    ensures Find(s, pat) == r
  {
  }

  lemma OccursExtend(r: string, d: string, pat: string, i: int)
    requires 0 <= i && i + |pat| <= |r|
    ensures OccursAt(r + d, pat, i) == OccursAt(r, pat, i)
  {
    assert (r + d)[i..i + |pat|] == r[i..i + |pat|];
  }

  /** Once a match lies inside `r`, later input does not move it. */
  lemma FindStable(r: string, d: string, pat: string)
    requires |pat| > 0 && Find(r, pat) < |r|
    ensures Find(r + d, pat) == Find(r, pat)
  {
    var p := Find(r, pat);
    OccursExtend(r, d, pat, p);
    forall i | 0 <= i < p ensures !OccursAt(r + d, pat, i) {
      OccursExtend(r, d, pat, i);
    }
    FindUnique(r + d, pat, p);
  }

  /** Without a match in `r`, a match in `r + d` must start in the last `|pat| - 1` bytes of `r` or later. */
  lemma FindLate(r: string, d: string, pat: string)
    requires |pat| > 0 && Find(r, pat) == |r|
    ensures forall i :: 0 <= i && i + |pat| <= |r| ==> !OccursAt(r + d, pat, i)
    ensures Find(r + d, pat) < |r + d| ==> Find(r + d, pat) + |pat| > |r|
  {
    forall i | 0 <= i && i + |pat| <= |r| ensures !OccursAt(r + d, pat, i) {
      OccursExtend(r, d, pat, i);
      assert i < |r|;
    }
  }

  lemma OccursDrop(s: string, pat: string, n: nat, i: int)
    requires n <= |s| && n <= i
    ensures OccursAt(s, pat, i) == OccursAt(s[n..], pat, i - n)
  {
    if i + |pat| <= |s| {
      assert s[i..i + |pat|] == s[n..][i - n..i - n + |pat|];
    }
  }

  /** Bytes that cannot start a match may be dropped before searching. */
  lemma FindDrop(s: string, pat: string, n: nat)
    requires |pat| > 0 && n <= |s|
    requires forall i :: 0 <= i < n ==> !OccursAt(s, pat, i)
    ensures Find(s, pat) == n + Find(s[n..], pat)
  {
    forall i | n <= i <= |s| ensures OccursAt(s, pat, i) == OccursAt(s[n..], pat, i - n) {
      OccursDrop(s, pat, n, i);
    }
    var q := Find(s[n..], pat);
    OccursDrop(s, pat, n, n + q);
    if q < |s| - n {
      FindUnique(s, pat, n + q);
    }
  }

  /** A pattern whose first byte does not recur inside it has no proper border:
      placed right after text that does not contain it, that is where it is found. */
  lemma FindAfter(a: string, pat: string, tail: string)
    requires |pat| > 0
    requires forall j :: 0 < j < |pat| ==> pat[j] != pat[0]
    requires !Contains(a, pat)
    ensures Find(a + pat + tail, pat) == |a|
  {
    var s := a + pat + tail;
    assert s[|a|..|a| + |pat|] == pat;
    forall i | 0 <= i < |a| ensures !OccursAt(s, pat, i) {
      if i + |pat| <= |a| {
        assert s == a + (pat + tail);
        OccursExtend(a, pat + tail, pat, i);
      } else {
        assert s[i..i + |pat|][|a| - i] == s[|a|] == pat[0];
      }
    }
    FindUnique(s, pat, |a|);
  }

  /** `t` from `j` on is `e` followed by `r`. */
  lemma CutPrefix(t: string, j: nat, e: string, r: string)
    requires j <= |t| && t[j..] == e + r
    ensures j + |e| <= |t| && t[j..j + |e|] == e && t[j + |e|..] == r
  {
    var s := t[j..];
    assert |s| == |e| + |r|;
    assert t[j..j + |e|] == s[..|e|];
    assert t[j + |e|..] == s[|e|..];
  }

  lemma CutFront(a: string, b: string, p: nat, n: nat)
    requires p + n <= |a|
    ensures (a + b)[..p] == a[..p] && (a + b)[p + n..] == a[p + n..] + b
  {
  }

  lemma SliceJoin(s: string, a: nat, b: nat, c: nat)
    requires a <= b <= c <= |s|
    ensures s[a..b] + s[b..c] == s[a..c]
  {
  }

  lemma CutLater(a: string, b: string, p: nat, n: nat)
    requires p + n <= |b|
    ensures (a + b)[..|a| + p] == a + b[..p] && (a + b)[|a| + p + n..] == b[p + n..]
  {
  }

  predicate Lacks(s: string, c: char) {
    forall i :: 0 <= i < |s| ==> s[i] != c
  }

  /** Position of a byte, or `|s|`. */
  function IndexOf(s: string, c: char): (r: nat)
    ensures r <= |s|
    ensures r < |s| ==> s[r] == c
    ensures forall i :: 0 <= i < r ==> s[i] != c
  {
    if s == "" || s[0] == c then 0 else 1 + IndexOf(s[1..], c)
  }

  lemma {:induction false} IndexOfAppend(a: string, c: char, b: string)
    requires Lacks(a, c)
    ensures IndexOf(a + [c] + b, c) == |a|
    ensures IndexOf(a, c) == |a|
  {
    var s := a + [c] + b;
    if a != "" {
      assert s[0] == a[0];
      assert s[1..] == a[1..] + [c] + b;
      IndexOfAppend(a[1..], c, b);
    }
  }

  // ---------- blanks ----------

  predicate IsBlank(c: char) { c == ' ' || c == '\t' }

  /** First non-blank position at or after `left`. */
  function SkipBlanks(s: string, left: nat): (r: nat)
    requires left <= |s|
    ensures left <= r <= |s|
    ensures forall i :: left <= i < r ==> IsBlank(s[i])
    ensures r < |s| ==> !IsBlank(s[r])
    decreases |s| - left
  {
    if left < |s| && IsBlank(s[left]) then SkipBlanks(s, left + 1) else left
  }

  /** One past the last non-blank position before `right`. */
  function DropBlanks(s: string, right: nat): (r: nat)
    requires right <= |s|
    ensures r <= right
    ensures forall i :: r <= i < right ==> IsBlank(s[i])
    ensures r > 0 ==> !IsBlank(s[r - 1])
  {
    if right > 0 && IsBlank(s[right - 1]) then DropBlanks(s, right - 1) else right
  }

  function TrimCopy(s: string): string {
    var l, r := SkipBlanks(s, 0), DropBlanks(s, |s|);
    if l < r then s[l..r] else ""
  }

  predicate Trimmed(s: string) {
    s == "" || (!IsBlank(s[0]) && !IsBlank(s[|s| - 1]))
  }

  lemma TrimOfTrimmed(s: string)
    requires Trimmed(s)
    ensures TrimCopy(s) == s
  {
  }

  lemma {:induction false} TrimPadded(pad: string, s: string)
    requires forall i :: 0 <= i < |pad| ==> IsBlank(pad[i])
    requires Trimmed(s)
    ensures TrimCopy(pad + s) == s
  {
    var t := pad + s;
    var l, r := SkipBlanks(t, 0), DropBlanks(t, |t|);
    assert forall i :: 0 <= i < |pad| ==> t[i] == pad[i];
    if s != "" {
      assert t[|pad|] == s[0];
      assert t[|t| - 1] == s[|s| - 1];
    }
  }

  // ---------- white space ----------

  predicate IsSpace(c: char) {
    c == ' ' || '\t' <= c <= '\r'
  }

  function SkipSpaces(s: string, i: nat): (r: nat)
    requires i <= |s|
    ensures i <= r <= |s|
    ensures r < |s| ==> !IsSpace(s[r])
    decreases |s| - i
  {
    if i < |s| && IsSpace(s[i]) then SkipSpaces(s, i + 1) else i
  }

  // ---------- case folding ----------

  function ToLower(c: char): char {
    if 'A' <= c <= 'Z' then (c as int + 32) as char else c
  }

  predicate StartsWithIgnoreCase(a: string, b: string) {
    |a| >= |b| && forall i :: 0 <= i < |b| ==> ToLower(a[i]) == ToLower(b[i])
  }

  predicate IsAlnum(c: char) {
    '0' <= c <= '9' || 'A' <= c <= 'Z' || 'a' <= c <= 'z'
  }

  // ---------- splitting ----------

  /** The piece a segment contributes: its trimmed text, unless that is empty. */
  function Piece(seg: string): seq<string> {
    var t := TrimCopy(seg);
    if t == "" then [] else [t]
  }

  /** Trimmed non-empty segments of `s[beg..]`, whose first `i - beg` bytes are known not to be `d`. */
  function SplitFrom(s: string, d: char, beg: nat, i: nat): seq<string>
    requires beg <= i <= |s|
    decreases |s| - i
  {
    if i == |s| then Piece(s[beg..i])
    else if s[i] == d then Piece(s[beg..i]) + SplitFrom(s, d, i + 1, i + 1)
    else SplitFrom(s, d, beg, i + 1)
  }

  /** Trimmed non-empty segments of `s` between occurrences of `d`. */
  function Split(s: string, d: char): seq<string> {
    SplitFrom(s, d, 0, 0)
  }

  lemma {:induction false} SplitSkip(s: string, d: char, beg: nat, i: nat, j: nat)
    requires beg <= i <= j <= |s| && forall k :: i <= k < j ==> s[k] != d
    ensures SplitFrom(s, d, beg, i) == SplitFrom(s, d, beg, j)
    decreases j - i
  {
    if i < j {
      SplitSkip(s, d, beg, i + 1, j);
    }
  }

  lemma SliceShift(t: string, n: nat, s: string, a: nat, b: nat)
    requires n <= |t| && s == t[n..] && a <= b <= |s|
    ensures t[n + a..n + b] == s[a..b]
  {
  }

  lemma {:induction false} SplitShift(t: string, n: nat, s: string, d: char, beg: nat, i: nat)
    requires n <= |t| && s == t[n..] && beg <= i <= |s|
    ensures SplitFrom(t, d, n + beg, n + i) == SplitFrom(s, d, beg, i)
    decreases |s| - i
  {
    hide Piece;
    SliceShift(t, n, s, beg, i);
    if i < |s| {
      assert t[n + i] == s[i];
      if s[i] == d {
        SplitShift(t, n, s, d, i + 1, i + 1);
      } else {
        SplitShift(t, n, s, d, beg, i + 1);
      }
    }
  }

  lemma PieceShort(seg: string)
    ensures |Piece(seg)| <= 1 && Fit(Piece(seg), |seg|)
  {
  }

  /** Pieces that fit into `n` bytes, the first and the last together with a separator. */
  ghost predicate Fit(pieces: seq<string>, n: nat) {
    && (forall p :: p in pieces ==> |p| <= n)
    && (|pieces| >= 2 ==> |pieces[0]| + 1 + |pieces[|pieces| - 1]| <= n)
  }

  lemma FitJoined(a: seq<string>, b: seq<string>, n: nat, m: nat)
    requires |a| <= 1 && Fit(a, n) && Fit(b, m)
    ensures Fit(a + b, n + 1 + m)
  {
    if a != [] && b != [] {
      assert a[0] in a && b[|b| - 1] in b;
    } else {
      assert a + b == if a == [] then b else a;
    }
  }

  lemma {:induction false} SplitShort(s: string, d: char, beg: nat, i: nat)
    requires beg <= i <= |s|
    ensures Fit(SplitFrom(s, d, beg, i), |s| - beg)
    decreases |s| - i
  {
    hide Piece, Fit;
    PieceShort(s[beg..i]);
    if i < |s| {
      if s[i] == d {
        SplitShort(s, d, i + 1, i + 1);
        var a, b := Piece(s[beg..i]), SplitFrom(s, d, i + 1, i + 1);
        assert SplitFrom(s, d, beg, i) == a + b;
        FitJoined(a, b, i - beg, |s| - i - 1);
      } else {
        SplitShort(s, d, beg, i + 1);
      }
    }
  }

  lemma SplitAtFirst(a: string, d: char, b: string)
    requires Lacks(a, d)
    ensures Split(a + [d] + b, d) == Piece(a) + Split(b, d)
  {
    var s := a + [d] + b;
    SplitSkip(s, d, 0, 0, |a|);
    assert s[0..|a|] == a;
    assert s[|a| + 1..] == b;
    SplitShift(s, |a| + 1, b, d, 0, 0);
  }

  lemma SplitNone(a: string, d: char)
    requires Lacks(a, d)
    ensures Split(a, d) == Piece(a)
  {
    SplitSkip(a, d, 0, 0, |a|);
    assert a[0..|a|] == a;
  }

  lemma SkipBlanksIs(s: string, left: nat, r: nat)
    requires left <= r <= |s|
    requires forall i :: left <= i < r ==> IsBlank(s[i])
    requires r < |s| ==> !IsBlank(s[r])
    ensures SkipBlanks(s, left) == r
  {
  }

  lemma DropBlanksIs(s: string, right: nat, r: nat)
    requires r <= right <= |s|
    requires forall i :: r <= i < right ==> IsBlank(s[i])
    requires r > 0 ==> !IsBlank(s[r - 1])
    ensures DropBlanks(s, right) == r
  {
  }

  lemma SliceOfSlice(s: string, beg: nat, i: nat, l: nat, r: nat)
    requires beg <= l <= r <= i <= |s|
    ensures s[beg..i][l - beg..r - beg] == s[l..r]
  {
    var a := s[beg..i][l - beg..r - beg];
    assert forall k :: 0 <= k < |a| ==> a[k] == s[l..r][k];
  }

  /** A segment of blanks only: nothing is left of it, and the two indices pass each other. */
  lemma TrimBlank(s: string, beg: nat, i: nat)
    requires beg <= i <= |s| && forall k :: beg <= k < i ==> IsBlank(s[k])
    ensures TrimCopy(s[beg..i]) == ""
    ensures DropBlanks(s, i) <= beg
  {
    var seg := s[beg..i];
    assert forall k :: 0 <= k < |seg| ==> seg[k] == s[beg + k];
    DropBlanksIs(seg, |seg|, 0);
  }

  lemma TrimEnds(s: string, beg: nat, i: nat, l: nat)
    requires beg <= l < i <= |s| && l == SkipBlanks(s, beg)
    ensures l < DropBlanks(s, i)
    ensures SkipBlanks(s[beg..i], 0) == l - beg && DropBlanks(s[beg..i], i - beg) == DropBlanks(s, i) - beg
  {
    var seg := s[beg..i];
    assert forall k :: 0 <= k < |seg| ==> seg[k] == s[beg + k];
    SkipBlanksIs(seg, 0, l - beg);
    DropBlanksIs(seg, |seg|, DropBlanks(s, i) - beg);
  }

  lemma TrimCopyIs(seg: string, l: nat, r: nat)
    requires l == SkipBlanks(seg, 0) && r == DropBlanks(seg, |seg|) && l < r
    ensures TrimCopy(seg) == seg[l..r]
  {
  }

  lemma TrimInside(s: string, beg: nat, i: nat, l: nat)
    requires beg <= l < i <= |s| && l == SkipBlanks(s, beg)
    ensures l < DropBlanks(s, i) && TrimCopy(s[beg..i]) == s[l..DropBlanks(s, i)]
  {
    TrimEnds(s, beg, i, l);
    hide SkipBlanks, DropBlanks, TrimCopy;
    var r := DropBlanks(s, i);
    TrimCopyIs(s[beg..i], l - beg, r - beg);
    SliceOfSlice(s, beg, i, l, r);
  }

  /** Trimming a segment in place agrees with trimming a copy of it, although the indices may leave the segment. */
  lemma PieceWithin(s: string, beg: nat, i: nat, l: nat, r: nat)
    requires beg <= i <= |s|
    requires l == SkipBlanks(s, beg) && r == DropBlanks(s, i)
    ensures Piece(s[beg..i]) == if l < r then [s[l..r]] else []
  {
    if l < i {
      TrimInside(s, beg, i, l);
    } else {
      TrimBlank(s, beg, i);
    }
    hide SkipBlanks, DropBlanks, TrimCopy;
  }

  /** What the loop does with one segment. */
  method EmitPiece(s: string, beg: nat, i: nat, before: seq<string>) returns (pieces: seq<string>)
    requires beg <= i <= |s|
    ensures pieces == before + Piece(s[beg..i])
  {
    pieces := before;
    var l, r := SkipBlanks(s, beg), DropBlanks(s, i);
    PieceWithin(s, beg, i, l, r);
    if l < r {
      pieces := pieces + [s[l..r]];
    }
  }

  /** The splitting loop, which trims each segment by moving two indices over the whole text. */
  method SplitLoop(s: string, d: char) returns (pieces: seq<string>)
    ensures pieces == Split(s, d)
  {
    pieces := [];
    var i, beg := 0, 0;
    while i < |s|
      invariant 0 <= beg <= i <= |s|
      invariant pieces + SplitFrom(s, d, beg, i) == Split(s, d)
    {
      if s[i] == d {
        pieces := EmitPiece(s, beg, i, pieces);
        beg := i + 1;
      }
      i := i + 1;
    }
    if i > 0 {
      pieces := EmitPiece(s, beg, i, pieces);
    }
  }

  /** Pieces in order, each kept only the first time it appears. */
  function Dedup(pieces: seq<string>): seq<string> {
    if pieces == [] then []
    else
      var last := pieces[|pieces| - 1];
      var init := Dedup(pieces[..|pieces| - 1]);
      if last in pieces[..|pieces| - 1] then init else init + [last]
  }

  /** `key=value` as the two parsers read it: first piece, and the last one when there are several. */
  function KeyValue(kv: string): Option<(string, string)> {
    var p := Split(kv, '=');
    if p == [] then None
    else Some((p[0], if |p| == 1 then "" else p[|p| - 1]))
  }
}
