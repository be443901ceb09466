/** Which parameter lists come back at all when they are written as a query text and parsed again. */
module QueryLimits {
  import opened Text
  import opened UrlCoding
  import opened QueryText

  // ---------- splitting what was joined ----------

  lemma {:induction false} SplitJoinedFrom(a: string, d: char, b: string, beg: nat, i: nat)
    requires beg <= i <= |a|
    ensures SplitFrom(a + [d] + b, d, beg, i) == SplitFrom(a, d, beg, i) + Split(b, d)
    decreases |a| - i
  {
    var s := a + [d] + b;
    assert s[beg..i] == a[beg..i];
    hide Piece;
    if i == |a| {
      assert s[|a| + 1..] == b;
      SplitShift(s, |a| + 1, b, d, 0, 0);
    } else {
      assert s[i] == a[i];
      if s[i] == d {
        SplitJoinedFrom(a, d, b, i + 1, i + 1);
        Associative(Piece(a[beg..i]), SplitFrom(a, d, i + 1, i + 1), Split(b, d));
      } else {
        SplitJoinedFrom(a, d, b, beg, i + 1);
      }
    }
  }

  /** The separator separates: both sides contribute their own pieces. */
  lemma SplitJoined(a: string, d: char, b: string)
    ensures Split(a + [d] + b, d) == Split(a, d) + Split(b, d)
  {
    SplitJoinedFrom(a, d, b, 0, 0);
  }

  /** A piece as long as the text is the text. */
  lemma WholePiece(s: string, d: char, p: string)
    requires p in Split(s, d) && |p| >= |s|
    ensures p == s && s != "" && Lacks(s, d) && Trimmed(s)
  {
    var i := IndexOf(s, d);
    if i < |s| {
      var a, b := s[..i], s[i + 1..];
      assert s == a + [d] + b;
      SplitJoined(a, d, b);
      SplitShort(a, d, 0, 0);
      SplitShort(b, d, 0, 0);
    } else {
      SplitNone(s, d);
      WholeTrim(s);
    }
  }

  lemma WholeTrim(s: string)
    ensures |TrimCopy(s)| >= |s| ==> TrimCopy(s) == s && Trimmed(s)
  {
  }

  // ---------- weights ----------

  /** Room a pair takes. Parsing a text never yields more than was written. */
  function PairWeight(kv: (string, string)): nat {
    2 * (|kv.0| + |kv.1|) + 1
  }

  function Weight(p: Params): nat {
    if p == [] then 0 else Weight(p[..|p| - 1]) + PairWeight(p[|p| - 1])
  }

  lemma {:induction false} WeightPlus(p: Params, q: Params)
    ensures Weight(p + q) == Weight(p) + Weight(q)
  {
    if q == [] {
      assert p + q == p;
    } else {
      assert (p + q)[..|p + q| - 1] == p + q[..|q| - 1];
      WeightPlus(p, q[..|q| - 1]);
    }
  }

  lemma WeightOne(kv: (string, string))
    ensures Weight([kv]) == PairWeight(kv) && Weight([]) == 0
  {
    assert [kv][..0] == [];
  }

  lemma WeightWithout(a: Params, x: (string, string), b: Params)
    ensures Weight(a + [x] + b) == Weight(a + b) + PairWeight(x)
  {
    WeightPlus(a + [x], b);
    WeightPlus(a, [x]);
    WeightPlus(a, b);
    WeightOne(x);
  }

  lemma TakeOut(init: Params, last: (string, string), q: Params) returns (a: Params, b: Params)
    requires multiset(init + [last]) == multiset(q)
    ensures q == a + [last] + b && multiset(a + b) == multiset(init)
  {
    assert last in multiset(init + [last]) && last in q;
    var i :| 0 <= i < |q| && q[i] == last;
    a, b := q[..i], q[i + 1..];
    assert q == a + [last] + b;
    assert multiset(q) == multiset(a) + multiset{last} + multiset(b);
    assert multiset(init) == multiset(init + [last]) - multiset{last};
    assert multiset(a + b) == multiset(q) - multiset{last};
  }

  lemma {:induction false} WeightOfAll(p: Params, q: Params)
    requires multiset(p) == multiset(q)
    ensures Weight(p) == Weight(q)
  {
    if p == [] {
      assert |multiset(q)| == 0;
    } else {
      var last, init := p[|p| - 1], p[..|p| - 1];
      assert p == init + [last];
      var a, b := TakeOut(init, last, q);
      WeightOfAll(init, a + b);
      WeightWithout(a, last, b);
    }
  }

  lemma EntriesPlus(ps: seq<string>, qs: seq<string>)
    ensures Entries(ps + qs) == Entries(ps) + Entries(qs)
    decreases |qs|
  {
    if qs == [] {
      assert ps + qs == ps;
    } else {
      assert (ps + qs)[..|ps + qs| - 1] == ps + qs[..|qs| - 1];
      EntriesPlus(ps, qs[..|qs| - 1]);
    }
  }

  lemma EntriesOne(q: string)
    ensures Entries([q]) == Entry(q) && Entries([]) == []
  {
    assert [q][..0] == [];
  }

  /** The entries of pieces as they come, each repeated piece once, weigh no more; if as much, they are the same. */
  lemma {:induction false} DedupWeight(ps: seq<string>)
    ensures Weight(Entries(Dedup(ps))) <= Weight(Entries(ps))
    ensures Weight(Entries(Dedup(ps))) == Weight(Entries(ps)) ==> Entries(Dedup(ps)) == Entries(ps)
  {
    if ps != [] {
      var init, last := ps[..|ps| - 1], ps[|ps| - 1];
      DedupWeight(init);
      EntriesPlus(Dedup(init), [last]);
      EntriesOne(last);
      WeightPlus(Entries(Dedup(init)), Entry(last));
      WeightPlus(Entries(init), Entry(last));
    }
  }

  // ---------- what one pair becomes ----------

  lemma KeyValueShort(q: string)
    ensures var e := KeyValue(q); e.Some? ==> |e.value.0| + |e.value.1| <= |q|
  {
    SplitShort(q, '=', 0, 0);
    var p := Split(q, '=');
    if p != [] {
      assert p[0] in p;
    }
  }

  lemma DecodedShort(s: string)
    ensures |DecodeUrl(s, true)| <= |s|
  {
    DecodeShrinks(s, 0, true);
  }

  /** The entry of any piece fits into the piece. */
  lemma EntryShort(q: string)
    ensures |Entry(q)| <= 1 && Weight(Entry(q)) <= 2 * |q| + 1
  {
    KeyValueShort(q);
    hide KeyValue, DecodeUrl;
    if KeyValue(q).Some? {
      var (k, v) := KeyValue(q).value;
      DecodedShort(k);
      DecodedShort(v);
      WeightOne((DecodeUrl(k, true), DecodeUrl(v, true)));
    } else {
      WeightOne(("", ""));
    }
  }

  /** What becomes of a pair without loss of room: a value without a key is taken for a key, and a key that keeps its
      extent is decoded. */
  predicate Kept(kv: (string, string), entry: (string, string)) {
    || (kv.0 == "" && kv.1 != "" && entry == (kv.1, ""))
    || (kv.0 != "" && Lacks(kv.0, '=') && Trimmed(kv.0)
        && entry == (DecodeUrl(kv.0, true), kv.1) && |entry.0| == |kv.0|)
  }

  lemma EncodedPiece(v: string)
    requires IsBytes(v)
    ensures var e := EncodeQueryParam(v);
            && Split(e, '=') == (if v == "" then [] else [e])
            && (e == "" <==> v == "") && Lacks(e, '&') && (e != "" ==> !IsBlank(e[|e| - 1]))
  {
    var e := EncodeQueryParam(v);
    EncodedAlphabet(v, 0);
    SplitNone(e, '=');
    TrimOfTrimmed(e);
    DecodeEncode(v, true);
    assert DecodeUrl("", true) == "";
  }

  lemma PlainPieces(y: string, v: string)
    requires IsBytes(v)
    ensures Split(y + "=" + EncodeQueryParam(v), '=')
         == Split(y, '=') + if v == "" then [] else [EncodeQueryParam(v)]
  {
    EncodedPiece(v);
    SplitJoined(y, '=', EncodeQueryParam(v));
  }

  /** The entry of a piece `y=` with an encoded value behind it. */
  lemma LastEntry(y: string, v: string)
    requires IsBytes(v)
    ensures var x, e := Split(y, '='), Entry(y + "=" + EncodeQueryParam(v));
            if x == [] then e == (if v == "" then [] else [(v, "")])
            else
              var last := if |x| == 1 then "" else DecodeUrl(x[|x| - 1], true);
              e == [(DecodeUrl(x[0], true), if v != "" then v else last)]
  {
    PlainPieces(y, v);
    DecodeEncode(v, true);
    assert DecodeUrl("", true) == "";
    hide Split, SplitFrom, DecodeUrl, EncodeQueryParam;
  }

  /** Key and value of a piece, from the pieces of its key part. */
  lemma KeyPieces(y: string)
    ensures var x := Split(y, '=');
            x != [] ==>
              && |DecodeUrl(x[0], true)| <= |x[0]| <= |y|
              && (|x| > 1 ==> |x[0]| + |DecodeUrl(x[|x| - 1], true)| < |y|)
              && (|x[0]| == |y| ==> x[0] == y && y != "" && Lacks(y, '=') && Trimmed(y))
  {
    var x := Split(y, '=');
    SplitShort(y, '=', 0, 0);
    if x != [] {
      assert x[0] in x;
      DecodedShort(x[0]);
      DecodedShort(x[|x| - 1]);
      if |x[0]| == |y| {
        WholePiece(y, '=', x[0]);
      }
    }
  }

  lemma LastShort(y: string, v: string)
    requires IsBytes(v)
    ensures var e := Entry(y + "=" + EncodeQueryParam(v));
            && |e| <= 1 && Weight(e) <= PairWeight((y, v))
            && (Weight(e) == PairWeight((y, v)) ==> |e| == 1 && Kept((y, v), e[0]))
  {
    var x, e := Split(y, '='), Entry(y + "=" + EncodeQueryParam(v));
    LastEntry(y, v);
    KeyPieces(y);
    hide Split, SplitFrom, DecodeUrl, EncodeQueryParam, Entry, Lacks, Trimmed;
    if e != [] {
      WeightOne(e[0]);
    }
  }

  /** The only piece of a pair whose key has no `&`: its text without the blanks in front. */
  lemma PairPiece(k: string, v: string) returns (l: nat)
    requires IsBytes(v) && Lacks(k, '&')
    ensures l <= |k| && Split(Pair((k, v)), '&') == [k[l..] + "=" + EncodeQueryParam(v)]
  {
    var e := EncodeQueryParam(v);
    var t := Pair((k, v));
    EncodedPiece(v);
    SplitNone(t, '&');
    l := SkipBlanks(t, 0);
    assert t[|k|] == '=' && !IsBlank(t[|t| - 1]);
    assert t[l..] == k[l..] + "=" + e && t[l..|t|] == t[l..];
  }

  /** Parsing what was written for one pair yields no more, and if as much, one entry with the pair's key and value
      kept. */
  lemma {:induction false} PairEntries(k: string, v: string)
    requires IsBytes(v)
    ensures var e := Entries(Split(Pair((k, v)), '&'));
            && Weight(e) <= PairWeight((k, v))
            && (Weight(e) == PairWeight((k, v)) ==> Lacks(k, '&') && |e| == 1 && Kept((k, v), e[0]))
    decreases |k|
  {
    var i := IndexOf(k, '&');
    if i == |k| {
      var l := PairPiece(k, v);
      EntriesOne(k[l..] + "=" + EncodeQueryParam(v));
      LastShort(k[l..], v);
    } else {
      var a, b := k[..i], k[i + 1..];
      assert Pair((k, v)) == a + ['&'] + Pair((b, v));
      PairEntries(b, v);
      SplitAtFirst(a, '&', Pair((b, v)));
      EntriesPlus(Piece(a), Split(Pair((b, v)), '&'));
      WeightPlus(Entries(Piece(a)), Entries(Split(Pair((b, v)), '&')));
      PieceWeight(a);
    }
  }

  lemma PieceWeight(seg: string)
    ensures Weight(Entries(Piece(seg))) <= 2 * |seg| + 1
  {
    var t := TrimCopy(seg);
    EntriesOne(t);
    EntryShort(t);
    WeightOne(("", ""));
    assert |t| <= |seg|;
  }

  // ---------- what a list becomes ----------

  /** The pieces of the pairs from `i` on. */
  function PiecesFrom(p: Params, i: nat): seq<string>
    requires Encodable(p) && i <= |p|
    decreases |p| - i
  {
    if i == |p| then [] else Split(Pair(p[i]), '&') + PiecesFrom(p, i + 1)
  }

  lemma {:induction false} SplitText(p: Params, i: nat)
    requires Encodable(p) && i <= |p|
    ensures Split(QueryFrom(p, i), '&') == PiecesFrom(p, i)
    decreases |p| - i
  {
    if i == |p| {
      SplitNone("", '&');
    } else if i + 1 == |p| {
      assert PiecesFrom(p, i + 1) == [];
    } else {
      SplitText(p, i + 1);
      SplitJoined(Pair(p[i]), '&', QueryFrom(p, i + 1));
    }
  }

  lemma WeightFrom(p: Params, i: nat)
    requires i < |p|
    ensures Weight(p[i..]) == PairWeight(p[i]) + Weight(p[i + 1..])
  {
    assert p[i..] == [p[i]] + p[i + 1..];
    WeightPlus([p[i]], p[i + 1..]);
    WeightOne(p[i]);
  }

  /** One entry for each pair from `i` on, in order, with keys and values kept. */
  ghost predicate AllKept(p: Params, i: nat, e: Params) {
    && i <= |p| && |e| == |p| - i
    && forall j :: i <= j < |p| ==> Lacks(p[j].0, '&') && Kept(p[j], e[j - i])
  }

  lemma AllKeptStep(p: Params, i: nat, first: (string, string), e: Params)
    requires i < |p| && AllKept(p, i + 1, e) && Lacks(p[i].0, '&') && Kept(p[i], first)
    ensures AllKept(p, i, [first] + e)
  {
    forall j | i < j < |p| ensures Kept(p[j], ([first] + e)[j - i]) {
      assert ([first] + e)[j - i] == e[j - (i + 1)];
    }
  }

  lemma {:induction false} ListEntries(p: Params, i: nat)
    requires Encodable(p) && i <= |p|
    ensures var e := Entries(PiecesFrom(p, i));
            Weight(e) <= Weight(p[i..]) && (Weight(e) == Weight(p[i..]) ==> AllKept(p, i, e))
    decreases |p| - i
  {
    if i == |p| {
      EntriesOne("");
    } else {
      var ps, e := Split(Pair(p[i]), '&'), Entries(PiecesFrom(p, i + 1));
      ListEntries(p, i + 1);
      PairEntries(p[i].0, p[i].1);
      EntriesPlus(ps, PiecesFrom(p, i + 1));
      WeightPlus(Entries(ps), e);
      WeightFrom(p, i);
      if Weight(Entries(ps) + e) == Weight(p[i..]) {
        assert Entries(ps) == [Entries(ps)[0]];
        AllKeptStep(p, i, Entries(ps)[0], e);
      }
    }
  }

  // ---------- which lists come back ----------

  function Unplussed(c: char): char {
    if c == '+' then ' ' else c
  }

  /** Decoding that loses no length only turns `+` into blanks. */
  lemma {:induction false} DecodeSame(s: string, i: nat)
    requires i <= |s| && |DecodeFrom(s, i, true)| == |s| - i
    ensures forall m :: 0 <= m < |s| - i ==> DecodeFrom(s, i, true)[m] == Unplussed(s[i + m])
    decreases |s| - i
  {
    if i < |s| {
      var (out, next) := DecodeOne(s, i, true);
      DecodeOneShrinks(s, i, true);
      DecodeShrinks(s, next, true);
      DecodeOneShort(s, i);
      DecodeSame(s, next);
      assert forall m :: 0 < m < |s| - i ==> DecodeFrom(s, i, true)[m] == DecodeFrom(s, next, true)[m - 1];
    }
  }

  lemma DecodeOneShort(s: string, i: nat)
    requires i < |s|
    ensures var (out, next) := DecodeOne(s, i, true);
            |out| < next - i || (next == i + 1 && out == [Unplussed(s[i])])
  {
  }

  lemma KeyDecoded(k: string)
    requires |DecodeUrl(k, true)| == |k|
    ensures Lacks(DecodeUrl(k, true), '+')
    ensures Lacks(k, '+') ==> DecodeUrl(k, true) == k
  {
    DecodeSame(k, 0);
    var d := DecodeUrl(k, true);
    assert forall m :: 0 <= m < |k| ==> d[m] == Unplussed(k[m]);
  }

  lemma KeptKey(kv: (string, string), entry: (string, string))
    requires Kept(kv, entry)
    ensures entry.0 != "" && (kv.0 != "" ==> Lacks(entry.0, '+'))
    ensures kv.0 != "" && Lacks(kv.0, '+') ==> entry == kv
  {
    if kv.0 != "" {
      KeyDecoded(kv.0);
    }
  }

  lemma AmongEntries(p: Params, e: Params, j: nat) returns (m: nat)
    requires multiset(e) == multiset(p) && j < |p|
    ensures m < |e| && e[m] == p[j]
  {
    assert p[j] in multiset(p);
    assert p[j] in e;
    m :| 0 <= m < |e| && e[m] == p[j];
  }

  /** If the same pairs come out, each is its own entry. */
  lemma KeptPairs(p: Params, e: Params)
    requires AllKept(p, 0, e) && multiset(e) == multiset(p)
    ensures e == p
  {
    forall j | 0 <= j < |p| ensures p[j].0 != "" {
      var m := AmongEntries(p, e, j);
      KeptKey(p[m], e[m]);
    }
    forall j | 0 <= j < |p| ensures e[j] == p[j] {
      var m := AmongEntries(p, e, j);
      KeptKey(p[m], e[m]);
      KeptKey(p[j], e[j]);
    }
  }

  lemma KeptOk(kv: (string, string))
    requires Kept(kv, kv) && Lacks(kv.0, '&')
    ensures KeyOk(kv.0)
  {
  }

  /** Which lists come back, exactly: written and parsed, a list yields the same pairs, in any order, if and only if it
      repeats none and every key is one that keeps its extent and decodes to itself. */
  lemma QueryExactly(p: Params)
    requires Encodable(p)
    ensures multiset(ParseQuery(QueryFrom(p, 0))) == multiset(p) <==> Writable(p) && DedupPairs(p) == p
  {
    var back, e := ParseQuery(QueryFrom(p, 0)), Entries(PiecesFrom(p, 0));
    if Writable(p) && DedupPairs(p) == p {
      QueryRoundTrip(p);
    } else if multiset(back) == multiset(p) {
      SplitText(p, 0);
      DedupWeight(PiecesFrom(p, 0));
      ListEntries(p, 0);
      WeightOfAll(back, p);
      assert p[0..] == p;
      KeptPairs(p, e);
      forall j | 0 <= j < |p| ensures KeyOk(p[j].0) {
        KeptOk(p[j]);
      }
      QueryRoundTrip(p);
    }
  }
}
