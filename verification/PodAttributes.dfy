/** The list of resource attributes a mutated container is given, once the kubelet has expanded its references. */
module PodAttributes {
  import opened Text
  import opened Segments
  import opened EnvSpec
  import opened PodMutation

  // ---------- which attributes there are ----------

  function Instance(s: Settings, container: string): Option<Value> {
    if s.chosenInstance != "" then Some([Lit(s.chosenInstance)])
    else if container == "" then None
    else Some([Ref(NamespaceName), Lit("."), Ref(PodName), Lit("."), Lit(container)])
  }

  /** The value of one attribute, the strongest source first. */
  function Attribute(s: Settings, container: string, key: string): Option<Value> {
    if key == SKIP_METRICS_KEY && s.skipSpanMetrics then Some([Lit("true")])
    else if key in s.annotations then Some([Lit(s.annotations[key])])
    else if key == INSTANCE_ID_KEY && Instance(s, container).Some? then Instance(s, container)
    else if key == NODE_NAME_KEY then Some([Ref(NodeName)])
    else if key in s.attributes then Some([Lit(s.attributes[key])])
    else None
  }

  /** These are the attributes, each with the value of its strongest source. */
  lemma AttributesExactly(s: Settings, container: string, key: string)
    ensures var extra := Extra(s, container);
            if Attribute(s, container, key).Some? then key in extra && extra[key] == Attribute(s, container, key).value
            else key !in extra
  {
    assert InstanceValue(s, container) == []
      <==> Instance(s, container).None?;
  }

  // ---------- how they are written ----------

  /** What the kubelet makes of a value, given the values of the variables referred to. */
  function Expand(v: Value, of: Name -> string): string {
    if v == [] then ""
    else
      Expand(v[..|v| - 1], of)
      + match v[|v| - 1] { case Lit(text) => text case Ref(name) => of(name) }
  }

  lemma {:induction false} ExpandPlus(a: Value, b: Value, of: Name -> string)
    ensures Expand(a + b, of) == Expand(a, of) + Expand(b, of)
  {
    if b == [] {
      assert a + b == a;
    } else {
      assert (a + b)[..|a + b| - 1] == a + b[..|b| - 1];
      ExpandPlus(a, b[..|b| - 1], of);
    }
  }

  lemma ExpandText(text: string, of: Name -> string)
    ensures Expand([Lit(text)], of) == text
  {
    assert [Lit(text)][..0] == [];
  }

  /** One attribute as it is written. */
  function Pair(extra: map<string, Value>, key: string, of: Name -> string): Segment {
    Segment("", key + "=" + if key in extra then Expand(extra[key], of) else "", "")
  }

  function Pairs(extra: map<string, Value>, keys: seq<string>, of: Name -> string): seq<Segment> {
    seq(|keys|, i requires 0 <= i < |keys| => Pair(extra, keys[i], of))
  }

  lemma {:induction false} LinkedSnoc(gs: seq<Segment>, g: Segment, d: char)
    ensures Linked(gs + [g], d) == if gs == [] then TextOf(g) else Linked(gs, d) + [d] + TextOf(g)
  {
    var all := gs + [g];
    if gs == [] {
      assert all == [g];
    } else {
      assert all[1..] == gs[1..] + [g];
      LinkedSnoc(gs[1..], g, d);
      if |gs| > 1 {
        var t, rest := TextOf(gs[0]), Linked(gs[1..], d);
        assert t + [d] + (rest + [d] + TextOf(g)) == t + [d] + rest + [d] + TextOf(g);
      }
    }
  }

  /** One more attribute behind a list. */
  lemma ExpandOne(list: Value, key: string, value: Value, of: Name -> string)
    ensures Expand(list + [Lit(",")] + [Lit(key + "=")] + value, of)
         == Expand(list, of) + [','] + (key + "=" + Expand(value, of))
    ensures Expand([Lit(key + "=")] + value, of) == key + "=" + Expand(value, of)
  {
    ExpandText(key + "=", of);
    ExpandText(",", of);
    ExpandPlus([Lit(key + "=")], value, of);
    ExpandPlus(list + [Lit(",")] + [Lit(key + "=")], value, of);
    ExpandPlus(list + [Lit(",")], [Lit(key + "=")], of);
    ExpandPlus(list, [Lit(",")], of);
    hide Expand;
    Associative(Expand(list, of) + ",", key + "=", Expand(value, of));
  }

  lemma PairsSnoc(extra: map<string, Value>, init: seq<string>, key: string, of: Name -> string)
    ensures Pairs(extra, init + [key], of) == Pairs(extra, init, of) + [Pair(extra, key, of)]
  {
  }

  lemma JoinedSnoc(extra: map<string, Value>, init: seq<string>, key: string)
    ensures var value := if key in extra then extra[key] else [];
            Joined(extra, init + [key])
            == if init == [] then [Lit(key + "=")] + value
               else Joined(extra, init) + [Lit(",")] + [Lit(key + "=")] + value
  {
    assert (init + [key])[..|init|] == init;
  }

  lemma PairText(extra: map<string, Value>, key: string, of: Name -> string)
    ensures TextOf(Pair(extra, key, of)) == key + "=" + Expand(if key in extra then extra[key] else [], of)
  {
  }

  lemma {:induction false} JoinedExpands(extra: map<string, Value>, keys: seq<string>, of: Name -> string)
    ensures Expand(Joined(extra, keys), of) == Linked(Pairs(extra, keys, of), ',')
  {
    if keys != [] {
      var init, key := keys[..|keys| - 1], keys[|keys| - 1];
      JoinedExpands(extra, init, of);
      assert keys == init + [key];
      hide *;
      PairText(extra, key, of);
      PairsSnoc(extra, init, key, of);
      JoinedSnoc(extra, init, key);
      ExpandOne(Joined(extra, init), key, if key in extra then extra[key] else [], of);
      LinkedSnoc(Pairs(extra, init, of), Pair(extra, key, of), ',');
      PairsEmpty(extra, init, of);
    }
  }

  lemma PairsEmpty(extra: map<string, Value>, keys: seq<string>, of: Name -> string)
    ensures Pairs(extra, keys, of) == [] <==> keys == []
  {
  }

  lemma {:induction false} CoresOfPairs(extra: map<string, Value>, keys: seq<string>, of: Name -> string)
    ensures Cores(Pairs(extra, keys, of)) == seq(|keys|, i requires 0 <= i < |keys| => Pair(extra, keys[i], of).core)
    decreases |keys|
  {
    if keys != [] {
      CoresOfPairs(extra, keys[1..], of);
      var gs := Pairs(extra, keys, of);
      assert gs[0].core != "";
      assert gs[1..] == Pairs(extra, keys[1..], of);
    }
  }

  /** What is read from the list: with no comma or blank in the way, splitting it at the commas yields `key=value` for
      each key, in order, with the value of its strongest source. */
  lemma AttributesRead(s: Settings, container: string, of: Name -> string)
    requires var extra := Extra(s, container); AllProper(Pairs(extra, s.sorted(extra.Keys), of), ',')
    requires var extra := Extra(s, container); forall k :: k in s.sorted(extra.Keys) ==> k in extra
    ensures var keys := s.sorted(Extra(s, container).Keys);
            var list := Split(Expand(AttributesValue(s, container), of), ',');
            && |list| == |keys|
            && forall i :: 0 <= i < |keys| ==>
                 && Attribute(s, container, keys[i]).Some?
                 && list[i] == keys[i] + "=" + Expand(Attribute(s, container, keys[i]).value, of)
  {
    var extra := Extra(s, container);
    var keys := s.sorted(extra.Keys);
    JoinedExpands(extra, keys, of);
    SplitSegments(Pairs(extra, keys, of), ',');
    CoresOfPairs(extra, keys, of);
    hide Extra, Attribute, Expand, Linked, Split, Cores, Joined;
    forall i | 0 <= i < |keys|
      ensures Attribute(s, container, keys[i]).Some? && extra[keys[i]] == Attribute(s, container, keys[i]).value
    {
      AttributesExactly(s, container, keys[i]);
    }
  }
}
