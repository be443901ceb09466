/** Query strings: building one from a parameter list and reading one back. */
module QueryText {
  import opened Text
  import opened Segments
  import opened UrlCoding

  type Params = seq<(string, string)>

  predicate Encodable(p: Params) {
    forall i :: 0 <= i < |p| ==> IsBytes(p[i].1)
  }

  function Pair(kv: (string, string)): string
    requires IsBytes(kv.1)
  {
    kv.0 + "=" + EncodeQueryParam(kv.1)
  }

  /** Query text of the parameters from index `i` on. */
  function QueryFrom(p: Params, i: nat): string
    requires Encodable(p) && i <= |p|
    decreases |p| - i
  {
    if i == |p| then ""
    else if i + 1 == |p| then Pair(p[i])
    else Pair(p[i]) + "&" + QueryFrom(p, i + 1)
  }

  lemma QueryStep(q: string, p: Params, i: nat)
    requires Encodable(p) && i < |p|
    ensures q + QueryFrom(p, i) == q + Pair(p[i]) + (if i + 1 < |p| then "&" else "") + QueryFrom(p, i + 1)
  {
    if i + 1 < |p| {
      assert q + (Pair(p[i]) + "&" + QueryFrom(p, i + 1)) == q + Pair(p[i]) + "&" + QueryFrom(p, i + 1);
    }
  }

  lemma AppendPair(q: string, kv: (string, string))
    requires IsBytes(kv.1)
    ensures q + Pair(kv) == q + kv.0 + "=" + EncodeQueryParam(kv.1)
  {
  }

  method ParamsToQueryStr(p: Params) returns (query: string)
    requires Encodable(p)
    ensures query == QueryFrom(p, 0)
  {
    query := "";
    for i := 0 to |p|
      invariant query + (if 0 < i < |p| then "&" else "") + QueryFrom(p, i) == QueryFrom(p, 0)
    {
      if i != 0 {
        query := query + "&";
      }
      QueryStep(query, p, i);
      var v := EncodeQueryParamLoop(p[i].1);
      AppendPair(query, p[i]);
      query := query + p[i].0;
      query := query + "=";
      query := query + v;
    }
  }

  function Entry(kv: string): Params {
    match KeyValue(kv)
    case None => []
    case Some((k, v)) => [(DecodeUrl(k, true), DecodeUrl(v, true))]
  }

  function Entries(pieces: seq<string>): Params {
    if pieces == [] then []
    else Entries(pieces[..|pieces| - 1]) + Entry(pieces[|pieces| - 1])
  }

  /** The parameters a query text denotes, in the order they are emplaced. */
  function ParseQuery(s: string): Params {
    Entries(Dedup(Split(s, '&')))
  }

  method ReadEntry(kv: string) returns (params: Params)
    ensures params == Entry(kv)
  {
    var parts := SplitLoop(kv, '=');
    params := [];
    if |parts| > 0 {
      var key, val := parts[0], if |parts| == 1 then "" else parts[|parts| - 1];
      var k := DecodeUrlLoop(key, true);
      var v := DecodeUrlLoop(val, true);
      params := [(k, v)];
    }
  }

  lemma DedupStep(pieces: seq<string>, i: nat)
    requires i < |pieces|
    ensures Entries(Dedup(pieces[..i + 1])) ==
            Entries(Dedup(pieces[..i])) + if pieces[i] in pieces[..i] then [] else Entry(pieces[i])
  {
    var d := Dedup(pieces[..i]);
    assert pieces[..i + 1][..i] == pieces[..i];
    assert (d + [pieces[i]])[..|d|] == d;
  }

  method ReadPieces(pieces: seq<string>) returns (params: Params)
    ensures params == Entries(Dedup(pieces))
  {
    params := [];
    var cache: set<string> := {};
    var i := 0;
    while i < |pieces|
      invariant 0 <= i <= |pieces|
      invariant forall x :: x in cache <==> x in pieces[..i]
      invariant params == Entries(Dedup(pieces[..i]))
    {
      var kv := pieces[i];
      DedupStep(pieces, i);
      assert pieces[..i + 1] == pieces[..i] + [kv];
      if kv !in cache {
        cache := cache + {kv};
        var entry := ReadEntry(kv);
        params := params + entry;
      }
      i := i + 1;
    }
    assert pieces[..i] == pieces;
  }

  method ParseQueryText(s: string) returns (params: Params)
    ensures params == ParseQuery(s)
  {
    var pieces := SplitLoop(s, '&');
    params := ReadPieces(pieces);
  }

  // ---------- any text, by its segments ----------

  /** Of the segments between equality signs the first that is not empty is the key, and the last one, if it is another,
      the value. */
  lemma PairSegments(gs: seq<Segment>)
    requires AllProper(gs, '=')
    ensures var cores := Cores(gs);
            Entry(Linked(gs, '='))
            == if cores == [] then []
               else [(DecodeUrl(cores[0], true), if |cores| == 1 then "" else DecodeUrl(cores[|cores| - 1], true))]
  {
    SplitSegments(gs, '=');
    assert DecodeUrl("", true) == "";
  }

  // ---------- reading back what was written ----------

  /** Keys the writer may emit raw: they keep their extent and decode to themselves. */
  predicate KeyOk(k: string) {
    k != "" && Lacks(k, '&') && Lacks(k, '=') && Trimmed(k) && DecodeUrl(k, true) == k
  }

  /** In particular every non-empty key of bytes that are never escaped. */
  lemma PlainKeyOk(k: string)
    requires k != "" && forall i :: 0 <= i < |k| ==> IsUnescaped(k[i])
    ensures KeyOk(k)
  {
    DecodePlain(k, true);
  }

  predicate Writable(p: Params) {
    Encodable(p) && forall i :: 0 <= i < |p| ==> KeyOk(p[i].0)
  }

  lemma PairShape(kv: (string, string))
    requires KeyOk(kv.0) && IsBytes(kv.1)
    ensures Lacks(Pair(kv), '&') && Trimmed(Pair(kv)) && Pair(kv) != ""
    ensures Piece(Pair(kv)) == [Pair(kv)]
  {
    EncodedAlphabet(kv.1, 0);
    TrimOfTrimmed(Pair(kv));
  }

  lemma PairEntry(kv: (string, string))
    requires KeyOk(kv.0) && IsBytes(kv.1)
    ensures Entry(Pair(kv)) == [kv]
  {
    var v := EncodeQueryParam(kv.1);
    EncodedAlphabet(kv.1, 0);
    assert Pair(kv) == kv.0 + ['='] + v;
    SplitAtFirst(kv.0, '=', v);
    SplitNone(v, '=');
    TrimOfTrimmed(kv.0);
    TrimOfTrimmed(v);
    DecodeEncode(kv.1, true);
    assert DecodeUrl("", true) == "";
  }

  function Pairs(p: Params): seq<string>
    requires Encodable(p)
  {
    seq(|p|, i requires 0 <= i < |p| => Pair(p[i]))
  }

  lemma PairsStep(p: Params, i: nat)
    requires Encodable(p) && i < |p|
    ensures Pairs(p)[i..] == [Pair(p[i])] + Pairs(p)[i + 1..]
  {
    assert Pairs(p)[i] == Pair(p[i]);
  }

  lemma SplitPair(kv: (string, string), rest: string)
    requires KeyOk(kv.0) && IsBytes(kv.1)
    ensures Split(Pair(kv), '&') == [Pair(kv)]
    ensures Split(Pair(kv) + ['&'] + rest, '&') == [Pair(kv)] + Split(rest, '&')
  {
    PairShape(kv);
    SplitNone(Pair(kv), '&');
    SplitAtFirst(Pair(kv), '&', rest);
  }

  lemma {:induction false} SplitQuery(p: Params, i: nat)
    requires Writable(p) && i <= |p|
    ensures Split(QueryFrom(p, i), '&') == Pairs(p)[i..]
    decreases |p| - i
  {
    if i == |p| {
      SplitNone("", '&');
    } else {
      PairsStep(p, i);
      if i + 1 == |p| {
        SplitPair(p[i], "");
      } else {
        SplitPair(p[i], QueryFrom(p, i + 1));
        SplitQuery(p, i + 1);
      }
    }
  }

  function DedupPairs(p: Params): Params {
    if p == [] then []
    else
      var last := p[|p| - 1];
      var init := DedupPairs(p[..|p| - 1]);
      if last in p[..|p| - 1] then init else init + [last]
  }

  lemma PairInjective(x: (string, string), y: (string, string))
    requires KeyOk(x.0) && IsBytes(x.1) && KeyOk(y.0) && IsBytes(y.1)
    requires Pair(x) == Pair(y)
    ensures x == y
  {
    PairEntry(x);
    PairEntry(y);
  }

  lemma PairsInit(p: Params, last: (string, string))
    requires Writable(p + [last])
    ensures Writable(p) && KeyOk(last.0) && IsBytes(last.1)
    ensures Pairs(p + [last]) == Pairs(p) + [Pair(last)]
  {
    assert forall k :: 0 <= k < |p| ==> (p + [last])[k] == p[k];
    assert (p + [last])[|p|] == last;
  }

  lemma PairMember(p: Params, last: (string, string))
    requires Writable(p) && KeyOk(last.0) && IsBytes(last.1)
    ensures Encodable(p) && (Pair(last) in Pairs(p) <==> last in p)
  {
    if last in p {
      var k :| 0 <= k < |p| && p[k] == last;
      assert Pairs(p)[k] == Pair(last);
    }
    if Pair(last) in Pairs(p) {
      var k :| 0 <= k < |p| && Pairs(p)[k] == Pair(last);
      PairInjective(p[k], last);
      assert p[k] in p;
    }
  }

  lemma DedupLast(d: seq<string>, x: string)
    ensures Dedup(d + [x]) == if x in d then Dedup(d) else Dedup(d) + [x]
    ensures Entries(d + [x]) == Entries(d) + Entry(x)
  {
    assert (d + [x])[..|d|] == d;
  }

  lemma {:induction false} EntriesOfPairs(p: Params)
    requires Writable(p)
    ensures Entries(Dedup(Pairs(p))) == DedupPairs(p)
  {
    if p != [] {
      var init, last := p[..|p| - 1], p[|p| - 1];
      assert p == init + [last];
      PairsInit(init, last);
      EntriesOfPairs(init);
      PairEntry(last);
      PairMember(init, last);
      DedupLast(Pairs(init), Pair(last));
      DedupLast(Dedup(Pairs(init)), Pair(last));
    }
  }

  /** Writing a parameter list and parsing it gives the list back, each distinct pair once. */
  lemma QueryRoundTrip(p: Params)
    requires Writable(p)
    ensures ParseQuery(QueryFrom(p, 0)) == DedupPairs(p)
  {
    SplitQuery(p, 0);
    assert Pairs(p)[0..] == Pairs(p);
    EntriesOfPairs(p);
  }
}
