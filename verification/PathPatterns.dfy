/** Route patterns told by what they are written from: texts, and the names between them. */
module PathPatterns {
  import opened Text
  import opened PathParams

  /** A text without a marker, and the name of the parameter behind it. */
  datatype Param = Param(text: string, name: string)

  predicate Proper(ps: seq<Param>) {
    forall i :: 0 <= i < |ps| ==> Lacks(ps[i].text, MARKER) && Lacks(ps[i].name, SEPARATOR)
  }

  /** The pattern of these parameters with `last` behind them; `open` leaves out a separator with nothing behind it. */
  function Pattern(ps: seq<Param>, last: string, open: bool): string
    decreases |ps|, 1
  {
    if ps == [] then last else ps[0].text + ([MARKER] + (ps[0].name + Behind(ps, last, open)))
  }

  function Behind(ps: seq<Param>, last: string, open: bool): string
    requires ps != []
    decreases |ps|, 0
  {
    if |ps| == 1 && last == "" && open then "" else [SEPARATOR] + Pattern(ps[1..], last, open)
  }

  function Texts(ps: seq<Param>, last: string): seq<string> {
    if ps == [] then (if last == "" then [] else [last]) else [ps[0].text] + Texts(ps[1..], last)
  }

  function NamesOf(ps: seq<Param>): seq<string> {
    if ps == [] then [] else [ps[0].name] + NamesOf(ps[1..])
  }

  lemma SeekText(p: string, pos: nat, text: string, c: char, rest: string)
    requires pos <= |p| && p[pos..] == text + rest && Lacks(text, c) && (rest == "" || rest[0] == c)
    ensures Seek(p, c, pos) == pos + |text| == |p| - |rest|
    ensures p[pos..pos + |text|] == text && p[pos + |text|..] == rest
  {
    CutPrefix(p, pos, text, rest);
    var m := pos + |text|;
    assert forall i :: pos <= i < m ==> p[i] == text[i - pos] by {
      assert forall i :: 0 <= i < |text| ==> p[pos..][i] == text[i];
    }
    assert rest != "" ==> p[m] == p[m..][0];
    SeekIs(p, c, pos, m);
  }

  lemma PastOne(p: string, pos: nat, c: char, rest: string)
    requires pos <= |p| && p[pos..] == [c] + rest
    ensures pos < |p| && p[pos + 1..] == rest
  {
    CutPrefix(p, pos, [c], rest);
  }

  /** The first parameter of a pattern. */
  lemma FirstParam(p: string, pos: nat, text: string, name: string, rest: string)
    requires pos <= |p| && p[pos..] == text + ([MARKER] + (name + rest))
    requires Lacks(text, MARKER) && Lacks(name, SEPARATOR) && (rest == "" || rest[0] == SEPARATOR)
    ensures var m := pos + |text|;
            && m == Seek(p, MARKER, pos) < |p| && p[pos..m] == text
            && NameAt(p, m) == name
            && NameEnd(p, m) == m + 1 + |name| == |p| - |rest|
            && p[m + 1 + |name|..] == rest
  {
    hide Lacks;
    SeekText(p, pos, text, MARKER, [MARKER] + (name + rest));
    PastOne(p, pos + |text|, MARKER, name + rest);
    SeekText(p, pos + |text| + 1, name, SEPARATOR, rest);
  }

  lemma NothingBeyond(p: string, pos: nat)
    requires pos > |p|
    ensures Fragments(p, pos) == [] && Names(p, pos) == []
  {
  }

  lemma LastText(p: string, pos: nat, last: string)
    requires pos <= |p| && p[pos..] == last && Lacks(last, MARKER)
    ensures Fragments(p, pos) == (if last == "" then [] else [last]) && Names(p, pos) == []
  {
    assert forall i :: pos <= i < |p| ==> p[i] == last[i - pos];
    SeekIs(p, MARKER, pos, |p|);
  }

  /** What is left of a pattern behind its first parameter, up to `e`. */
  ghost predicate Left(p: string, e: nat, ps: seq<Param>, last: string, open: bool)
    requires ps != []
  {
    if |ps| == 1 && last == "" && open then e == |p|
    else e < |p| && p[e + 1..] == Pattern(ps[1..], last, open)
  }

  lemma PatternStep(ps: seq<Param>, last: string, open: bool)
    requires ps != []
    ensures Pattern(ps, last, open) == ps[0].text + ([MARKER] + (ps[0].name + Behind(ps, last, open)))
    ensures Behind(ps, last, open)
         == if |ps| == 1 && last == "" && open then "" else [SEPARATOR] + Pattern(ps[1..], last, open)
  {
  }

  lemma FirstLeft(p: string, pos: nat, ps: seq<Param>, last: string, open: bool) returns (m: nat, e: nat)
    requires ps != [] && Proper(ps)
    requires pos <= |p| && p[pos..] == Pattern(ps, last, open)
    ensures m == Seek(p, MARKER, pos) < |p| && p[pos..m] == ps[0].text && NameAt(p, m) == ps[0].name
    ensures e == NameEnd(p, m) && Left(p, e, ps, last, open)
  {
    hide Seek, NameAt, NameEnd, Lacks, Pattern, Behind;
    m := pos + |ps[0].text|;
    e := m + 1 + |ps[0].name|;
    PatternStep(ps, last, open);
    FirstParam(p, pos, ps[0].text, ps[0].name, Behind(ps, last, open));
    if !(|ps| == 1 && last == "" && open) {
      PastOne(p, e, SEPARATOR, Pattern(ps[1..], last, open));
    }
  }

  lemma ParamFrom(p: string, pos: nat, ps: seq<Param>, last: string, open: bool) returns (next: nat)
    requires ps != [] && Proper(ps)
    requires pos <= |p| && p[pos..] == Pattern(ps, last, open)
    ensures Fragments(p, pos) == [ps[0].text] + Fragments(p, next)
    ensures Names(p, pos) == [ps[0].name] + Names(p, next)
    ensures if |ps| == 1 && last == "" && open then next > |p|
            else next <= |p| && p[next..] == Pattern(ps[1..], last, open)
  {
    hide *;
    var m, e := FirstLeft(p, pos, ps, last, open);
    NamesStep(p, pos, m);
    FragmentsStep(p, pos, m);
    LeftIs(p, e, ps, last, open);
    next := e + 1;
  }

  lemma {:induction false} PatternFrom(p: string, pos: nat, ps: seq<Param>, last: string, open: bool)
    requires pos <= |p| && p[pos..] == Pattern(ps, last, open) && Proper(ps) && Lacks(last, MARKER)
    ensures Fragments(p, pos) == Texts(ps, last) && Names(p, pos) == NamesOf(ps)
    decreases |ps|
  {
    if ps == [] {
      LastText(p, pos, last);
      TextsNone(ps, last);
      hide *;
    } else {
      hide Fragments, Names, Seek, Pattern, Texts, NamesOf;
      var next := ParamFrom(p, pos, ps, last, open);
      TextsStep(ps, last);
      if |ps| == 1 && last == "" && open {
        NothingBeyond(p, next);
        TextsNone(ps[1..], last);
      } else {
        PatternFrom(p, next, ps[1..], last, open);
      }
    }
  }

  lemma LeftIs(p: string, e: nat, ps: seq<Param>, last: string, open: bool)
    requires ps != [] && Proper(ps) && Left(p, e, ps, last, open)
    ensures Proper(ps[1..])
    ensures if |ps| == 1 && last == "" && open then e == |p|
            else e < |p| && p[e + 1..] == Pattern(ps[1..], last, open)
  {
  }

  lemma TextsStep(ps: seq<Param>, last: string)
    requires ps != []
    ensures Texts(ps, last) == [ps[0].text] + Texts(ps[1..], last) && NamesOf(ps) == [ps[0].name] + NamesOf(ps[1..])
  {
  }

  lemma TextsNone(ps: seq<Param>, last: string)
    requires ps == []
    ensures Texts(ps, last) == (if last == "" then [] else [last]) && NamesOf(ps) == []
  {
  }

  /** A pattern compiles to the texts and the names it is written from, unless a name is repeated: then it is refused
      with the first name that occurred before. */
  lemma CompilesExactly(ps: seq<Param>, last: string, open: bool)
    requires Proper(ps) && Lacks(last, MARKER)
    ensures match Compiled(Pattern(ps, last, open))
            case Ok(m) => m == Matcher(Texts(ps, last), NamesOf(ps)) && Distinct(NamesOf(ps))
            case DuplicateName(name) =>
              exists i, j :: 0 <= i < j < |NamesOf(ps)| && NamesOf(ps)[i] == name == NamesOf(ps)[j]
                             && NoRepeat(NamesOf(ps), j)
  {
    var p := Pattern(ps, last, open);
    assert p[0..] == p;
    PatternFrom(p, 0, ps, last, open);
    RefusesExactly(p);
    var names := NamesOf(ps);
    var j := FirstRepeat(names, 0);
    if j < |names| {
      var i :| 0 <= i < j && names[..j][i] == names[j];
      assert names[i] == names[j];
    }
  }

  /** The first parameter of any pattern with a marker. */
  lemma ReadParam(p: string, m: nat) returns (first: Param, rest: string)
    requires m == Seek(p, MARKER, 0) < |p|
    ensures Proper([first]) && p == first.text + ([MARKER] + (first.name + rest)) && |rest| == |p| - NameEnd(p, m)
    ensures rest == "" || rest[0] == SEPARATOR
  {
    var e := NameEnd(p, m);
    first, rest := Param(p[..m], p[m + 1..e]), p[e..];
    ParamRead(p, m);
    CutText(p, m, e);
    hide Seek, NameEnd;
  }

  lemma ParamRead(p: string, m: nat)
    requires m == Seek(p, MARKER, 0) < |p|
    ensures Proper([Param(p[..m], NameAt(p, m))])
  {
    SeekSkips(p, MARKER, 0);
    SeekSkips(p, SEPARATOR, m + 1);
  }

  lemma CutText(p: string, m: nat, e: nat)
    requires m < e <= |p|
    ensures p == p[..m] + ([p[m]] + (p[m + 1..e] + p[e..]))
  {
    assert p[m + 1..] == p[m + 1..e] + p[e..];
    assert p[m..] == [p[m]] + p[m + 1..];
    assert p == p[..m] + p[m..];
  }

  lemma ProperMore(first: Param, ps: seq<Param>)
    requires Proper([first]) && Proper(ps)
    ensures Proper([first] + ps)
  {
    assert [first][0] == first;
  }

  /** Every pattern is written this way. */
  lemma {:induction false} EveryPattern(p: string) returns (ps: seq<Param>, last: string, open: bool)
    ensures Proper(ps) && Lacks(last, MARKER) && Pattern(ps, last, open) == p
    decreases |p|
  {
    ps, last, open := [], p, true;
    SeekSkips(p, MARKER, 0);
    var m := Seek(p, MARKER, 0);
    if m < |p| {
      var first, rest := ReadParam(p, m);
      if rest == "" {
        ps, last := [first], "";
        assert Behind(ps, last, open) == rest;
      } else {
        var more;
        more, last, open := EveryPattern(rest[1..]);
        assert rest == [SEPARATOR] + rest[1..];
        ps := [first] + more;
        if more == [] && last == "" {
          open := false;
        }
        assert ps[1..] == more;
        assert Behind(ps, last, open) == rest;
        ProperMore(first, more);
      }
    }
  }
}
