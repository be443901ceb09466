/** Route patterns with `:name` parameters: compiling a pattern and matching request paths against it. */
module PathParams {
  import opened Text

  const MARKER := ':'
  const SEPARATOR := '/'
  const NUL := '\0'

  datatype Result<T> = Ok(value: T) | DuplicateName(name: string)

  datatype Matcher = Matcher(fragments: seq<string>, names: seq<string>)

  /** First position of `c` at or after `from`, or `|s|`; `from` may lie past the end. */
  function Seek(s: string, c: char, from: nat): (r: nat)
    ensures r <= |s| && (r < |s| ==> from <= r && s[r] == c)
    ensures from <= |s| ==> from <= r
    decreases |s| - from
  {
    if from >= |s| then |s| else if s[from] == c then from else Seek(s, c, from + 1)
  }

  lemma {:induction false} SeekIs(s: string, c: char, from: nat, r: nat)
    requires from <= r <= |s| && (r < |s| ==> s[r] == c)
    requires forall i :: from <= i < r ==> s[i] != c
    ensures Seek(s, c, from) == r
    decreases r - from
  {
    if from < r {
      SeekIs(s, c, from + 1, r);
    }
  }

  lemma {:induction false} SeekSkips(s: string, c: char, from: nat)
    ensures forall i :: from <= i < Seek(s, c, from) ==> s[i] != c
    decreases |s| - from
  {
    if from < |s| && s[from] != c {
      SeekSkips(s, c, from + 1);
    }
  }

  // ---------- compiling a pattern ----------

  /** End of the parameter whose marker stands at `marker`. */
  function NameEnd(pattern: string, marker: nat): (e: nat)
    requires marker < |pattern|
    ensures marker < e <= |pattern| && (e < |pattern| ==> pattern[e] == SEPARATOR)
  {
    Seek(pattern, SEPARATOR, marker + 1)
  }

  function NameAt(pattern: string, marker: nat): string
    requires marker < |pattern|
  {
    pattern[marker + 1..NameEnd(pattern, marker)]
  }

  function Fragments(pattern: string, pos: nat): seq<string>
    decreases |pattern| + 1 - pos
  {
    var m := Seek(pattern, MARKER, pos);
    if m < |pattern| then [pattern[pos..m]] + Fragments(pattern, NameEnd(pattern, m) + 1)
    else if pos < |pattern| then [pattern[pos..]]
    else []
  }

  function Names(pattern: string, pos: nat): seq<string>
    decreases |pattern| + 1 - pos
  {
    var m := Seek(pattern, MARKER, pos);
    if m < |pattern| then [NameAt(pattern, m)] + Names(pattern, NameEnd(pattern, m) + 1) else []
  }

  /** The first `n` names are distinct. */
  predicate NoRepeat(names: seq<string>, n: nat)
    requires n <= |names|
  {
    n == 0 || (names[n - 1] !in names[..n - 1] && NoRepeat(names, n - 1))
  }

  /** Index of the first name that occurred before, or `|names|`. */
  function FirstRepeat(names: seq<string>, i: nat): (r: nat)
    requires i <= |names|
    ensures i <= r <= |names|
    ensures NoRepeat(names, i) ==> NoRepeat(names, r)
    ensures r < |names| ==> names[r] in names[..r]
    decreases |names| - i
  {
    if i == |names| || names[i] in names[..i] then i else FirstRepeat(names, i + 1)
  }

  lemma {:induction false} FirstRepeatIs(names: seq<string>, i: nat, r: nat)
    requires i <= r <= |names| && (r < |names| ==> names[r] in names[..r])
    requires NoRepeat(names, r)
    ensures FirstRepeat(names, i) == r
    decreases r - i
  {
    if i < r {
      NoRepeatAt(names, r, i);
      FirstRepeatIs(names, i + 1, r);
    }
  }

  lemma {:induction false} NoRepeatAt(names: seq<string>, n: nat, i: nat)
    requires i < n <= |names| && NoRepeat(names, n)
    ensures names[i] !in names[..i] && NoRepeat(names, i)
  {
    if i < n - 1 {
      NoRepeatAt(names, n - 1, i);
    }
  }

  function Compiled(pattern: string): Result<Matcher> {
    var names := Names(pattern, 0);
    var r := FirstRepeat(names, 0);
    if r < |names| then DuplicateName(names[r]) else Ok(Matcher(Fragments(pattern, 0), names))
  }

  /** `whole` is `done` followed by a list that begins with `x`. */
  lemma Advance<T>(whole: seq<T>, done: seq<T>, x: T, rest: seq<T>)
    requires whole == done + ([x] + rest)
    ensures whole == done + [x] + rest && |done| < |whole| && whole[..|done|] == done && whole[|done|] == x
  {
  }

  lemma NamesStep(pattern: string, pos: nat, m: nat)
    requires m == Seek(pattern, MARKER, pos) < |pattern|
    ensures Names(pattern, pos) == [NameAt(pattern, m)] + Names(pattern, NameEnd(pattern, m) + 1)
    ensures Names(pattern, pos)[1..] == Names(pattern, NameEnd(pattern, m) + 1)
  {
  }

  lemma FragmentsStep(pattern: string, pos: nat, m: nat)
    requires m == Seek(pattern, MARKER, pos) < |pattern|
    ensures pos <= m && Fragments(pattern, pos) == [pattern[pos..m]] + Fragments(pattern, NameEnd(pattern, m) + 1)
    ensures Fragments(pattern, pos)[1..] == Fragments(pattern, NameEnd(pattern, m) + 1)
  {
  }

  /** What the loop has collected before the text at `pos`. */
  ghost predicate Collected(pattern: string, pos: nat, fragments: seq<string>, names: seq<string>) {
    && pos <= |pattern| + 1
    && Fragments(pattern, 0) == fragments + Fragments(pattern, pos)
    && Names(pattern, 0) == names + Names(pattern, pos)
    && NoRepeat(names, |names|)
  }

  lemma {:induction false} NoRepeatPrefix(names: seq<string>, more: seq<string>, n: nat)
    requires n <= |names|
    ensures NoRepeat(names + more, n) == NoRepeat(names, n)
  {
    if n > 0 {
      assert (names + more)[..n - 1] == names[..n - 1];
      NoRepeatPrefix(names, more, n - 1);
    }
  }

  lemma CollectOne(pattern: string, pos: nat, m: nat, fragments: seq<string>, names: seq<string>)
    requires Collected(pattern, pos, fragments, names) && m == Seek(pattern, MARKER, pos) < |pattern|
    ensures var name := NameAt(pattern, m);
            if name in names then Compiled(pattern) == DuplicateName(name)
            else Collected(pattern, NameEnd(pattern, m) + 1, fragments + [pattern[pos..m]], names + [name])
  {
    var name := NameAt(pattern, m);
    var all := Names(pattern, 0);
    var rest := Names(pattern, NameEnd(pattern, m) + 1);
    FragmentsStep(pattern, pos, m);
    Advance(Fragments(pattern, 0), fragments, pattern[pos..m], Fragments(pattern, NameEnd(pattern, m) + 1));
    NamesStep(pattern, pos, m);
    Advance(all, names, name, rest);
    if name in names {
      NoRepeatPrefix(names, [name] + rest, |names|);
      assert all == names + ([name] + rest);
      FirstRepeatIs(all, 0, |names|);
    } else {
      NoRepeatPrefix(names, [name], |names|);
      assert (names + [name])[..|names|] == names;
    }
  }

  lemma CollectedAll(pattern: string, pos: nat, fragments: seq<string>, names: seq<string>)
    requires Collected(pattern, pos, fragments, names) && Seek(pattern, MARKER, pos) == |pattern|
    ensures Compiled(pattern)
         == Ok(Matcher(if pos < |pattern| then fragments + [pattern[pos..]] else fragments, names))
  {
    assert Names(pattern, pos) == [];
    assert names == Names(pattern, 0);
    FirstRepeatIs(names, 0, |names|);
    assert pos >= |pattern| ==> fragments + [] == fragments;
  }

  /** The constructor's loop. */
  method Compile(pattern: string) returns (r: Result<Matcher>)
    ensures r == Compiled(pattern)
  {
    var fragments: seq<string>, names: seq<string>, pos: nat := [], [], 0;
    while true
      invariant Collected(pattern, pos, fragments, names)
      decreases |pattern| + 1 - pos
    {
      var m := Seek(pattern, MARKER, pos);
      if m == |pattern| {
        break;
      }
      CollectOne(pattern, pos, m, fragments, names);
      fragments := fragments + [pattern[pos..m]];
      var name := NameAt(pattern, m);
      if name in names {
        return DuplicateName(name);
      }
      names := names + [name];
      pos := NameEnd(pattern, m) + 1;
    }
    CollectedAll(pattern, pos, fragments, names);
    if pos < |pattern| {
      fragments := fragments + [pattern[pos..]];
    }
    r := Ok(Matcher(fragments, names));
  }

  // ---------- matching a path ----------

  /** `strncmp` of `fragment` against the path at `pos`: comparison ends behind a common NUL. */
  function StrnEqual(path: string, pos: nat, fragment: string, i: nat): bool
    requires i <= |fragment| && pos + |fragment| <= |path|
    decreases |fragment| - i
  {
    i == |fragment|
    || (path[pos + i] == fragment[i] && (fragment[i] == NUL || StrnEqual(path, pos, fragment, i + 1)))
  }

  lemma {:induction false} StrnEqualSame(path: string, pos: nat, fragment: string, i: nat)
    requires i <= |fragment| && pos + |fragment| <= |path| && path[pos..pos + |fragment|] == fragment
    ensures StrnEqual(path, pos, fragment, i)
    decreases |fragment| - i
  {
    if i < |fragment| {
      assert path[pos + i] == path[pos..pos + |fragment|][i];
      StrnEqualSame(path, pos, fragment, i + 1);
    }
  }

  /** No NUL before the last byte: the comparison covers the whole fragment. */
  predicate Compared(fragment: string) {
    forall k :: 0 <= k < |fragment| - 1 ==> fragment[k] != NUL
  }

  predicate AllCompared(fragments: seq<string>) {
    forall i :: 0 <= i < |fragments| ==> Compared(fragments[i])
  }

  lemma {:induction false} StrnEqualMeans(path: string, pos: nat, fragment: string, i: nat)
    requires i <= |fragment| && pos + |fragment| <= |path| && Compared(fragment)
    requires StrnEqual(path, pos, fragment, i)
    ensures path[pos + i..pos + |fragment|] == fragment[i..]
    decreases |fragment| - i
  {
    if i == |fragment| - 1 {
      assert path[pos + i..pos + |fragment|] == [path[pos + i]] && fragment[i..] == [fragment[i]];
    } else if i < |fragment| {
      StrnEqualMeans(path, pos, fragment, i + 1);
      assert path[pos + i..pos + |fragment|] == [path[pos + i]] + path[pos + i + 1..pos + |fragment|];
      assert fragment[i..] == [fragment[i]] + fragment[i + 1..];
    }
  }

  /** Position behind the fragment, if the path has it at `pos`. */
  function PastFragment(path: string, pos: nat, fragment: string): Option<nat> {
    if pos + |fragment| > |path| || !StrnEqual(path, pos, fragment, 0) then None else Some(pos + |fragment|)
  }

  lemma PastFragmentIs(path: string, pos: nat, fragment: string)
    requires pos + |fragment| <= |path| && path[pos..pos + |fragment|] == fragment
    ensures PastFragment(path, pos, fragment) == Some(pos + |fragment|)
  {
    StrnEqualSame(path, pos, fragment, 0);
  }

  lemma PastFragmentMeans(path: string, pos: nat, fragment: string)
    requires PastFragment(path, pos, fragment).Some? && Compared(fragment)
    ensures pos + |fragment| <= |path| && path[pos..] == fragment + path[pos + |fragment|..]
  {
    StrnEqualMeans(path, pos, fragment, 0);
    assert path[pos..] == path[pos..pos + |fragment|] + path[pos + |fragment|..];
  }

  /** `unordered_map::emplace`: an existing key keeps its value. */
  function Emplace(params: map<string, string>, name: string, value: string): map<string, string> {
    if name in params then params else params[name := value]
  }

  /** One round: step over a fragment and, if a name is left, take everything up to the next separator. */
  function Round(fragment: string, names: seq<string>, path: string, pos: nat, params: map<string, string>)
    : Option<(nat, map<string, string>)>
  {
    match PastFragment(path, pos, fragment)
    case None => None
    case Some(p) =>
      if names == [] then Some((p, params))
      else
        var e := Seek(path, SEPARATOR, p);
        Some((e + 1, Emplace(params, names[0], path[p..e])))
  }

  function Rest<T>(s: seq<T>, i: nat): seq<T> {
    if i <= |s| then s[i..] else []
  }

  /** Matching from `pos` on, where `pos` may lie one past the end behind a last parameter. */
  function MatchFrom(fragments: seq<string>, names: seq<string>, path: string, pos: nat, params: map<string, string>)
    : Option<map<string, string>>
    decreases |fragments|
  {
    if fragments == [] then (if pos >= |path| then Some(params) else None)
    else
      match Round(fragments[0], names, path, pos, params)
      case None => None
      case Some(r) => MatchFrom(fragments[1..], Rest(names, 1), path, r.0, r.1)
  }

  function Matched(m: Matcher, path: string): Option<map<string, string>> {
    MatchFrom(m.fragments, m.names, path, 0, map[])
  }

  lemma RestStep<T>(s: seq<T>, i: nat)
    ensures i < |s| ==> Rest(s, i) != [] && Rest(s, i)[0] == s[i] && Rest(s, i)[1..] == Rest(s, i + 1)
    ensures i >= |s| ==> Rest(s, i) == []
    ensures Rest(Rest(s, i), 1) == Rest(s, i + 1)
  {
  }

  /** The loop from round `i` on. */
  function MatchAt(m: Matcher, path: string, i: nat, pos: nat, params: map<string, string>): Option<map<string, string>>
    requires i <= |m.fragments|
    decreases |m.fragments| - i
  {
    if i == |m.fragments| then (if pos >= |path| then Some(params) else None)
    else
      match PastFragment(path, pos, m.fragments[i])
      case None => None
      case Some(p) =>
        if i >= |m.names| then MatchAt(m, path, i + 1, p, params)
        else
          var e := Seek(path, SEPARATOR, p);
          MatchAt(m, path, i + 1, e + 1, Emplace(params, m.names[i], path[p..e]))
  }

  lemma {:induction false} MatchAtIs(m: Matcher, path: string, i: nat, pos: nat, params: map<string, string>)
    requires i <= |m.fragments|
    ensures MatchAt(m, path, i, pos, params) == MatchFrom(Rest(m.fragments, i), Rest(m.names, i), path, pos, params)
    decreases |m.fragments| - i
  {
    if i < |m.fragments| {
      RestStep(m.fragments, i);
      RestStep(m.names, i);
      var r := Round(m.fragments[i], Rest(m.names, i), path, pos, params);
      if r.Some? {
        MatchAtIs(m, path, i + 1, r.value.0, r.value.1);
      }
    }
  }

  /** The matching loop. */
  method Match(m: Matcher, path: string) returns (ok: bool, params: map<string, string>)
    ensures ok <==> Matched(m, path).Some?
    ensures ok ==> Matched(m, path) == Some(params)
  {
    hide StrnEqual, Seek;
    params := map[];
    var pos: nat := 0;
    assert Rest(m.fragments, 0) == m.fragments && Rest(m.names, 0) == m.names;
    MatchAtIs(m, path, 0, 0, map[]);
    ghost var expected := Matched(m, path);
    for i := 0 to |m.fragments|
      invariant MatchAt(m, path, i, pos, params) == expected
    {
      var fragment := m.fragments[i];
      if pos + |fragment| > |path| {
        return false, params;
      }
      if !StrnEqual(path, pos, fragment, 0) {
        return false, params;
      }
      pos := pos + |fragment|;
      if i >= |m.names| {
        continue;
      }
      var e := Seek(path, SEPARATOR, pos);
      params := Emplace(params, m.names[i], path[pos..e]);
      pos := e + 1;
    }
    ok := pos >= |path|;
  }

  // ---------- substituting values into a pattern ----------

  /** Every name has a value without a separator. */
  predicate Covers(values: map<string, string>, names: seq<string>) {
    names == []
    || (names[0] in values && Lacks(values[names[0]], SEPARATOR) && Covers(values, names[1..]))
  }

  function ValueOf(values: map<string, string>, name: string): string {
    if name in values then values[name] else ""
  }

  /** `head`, and behind a separator the rest if there is `more`. */
  function Joined(head: string, more: bool, rest: string): string {
    if more then head + ([SEPARATOR] + rest) else head
  }

  /** The pattern from `pos` on with every `:name` replaced by its value. */
  function Substitute(pattern: string, pos: nat, values: map<string, string>): string
    decreases |pattern| + 1 - pos
  {
    var m := Seek(pattern, MARKER, pos);
    if m == |pattern| then (if pos < |pattern| then pattern[pos..] else "")
    else
      Joined(pattern[pos..m] + ValueOf(values, NameAt(pattern, m)), NameEnd(pattern, m) < |pattern|,
             Substitute(pattern, NameEnd(pattern, m) + 1, values))
  }

  /** Fragments and values interleaved, with the separator behind each value that is not last. */
  function Render(fragments: seq<string>, names: seq<string>, values: map<string, string>): string
    decreases |fragments|
  {
    if fragments == [] then ""
    else if names == [] then fragments[0] + Render(fragments[1..], [], values)
    else Joined(fragments[0] + ValueOf(values, names[0]), |fragments| > 1, Render(fragments[1..], names[1..], values))
  }

  predicate EndsInParam(fragments: seq<string>, names: seq<string>) {
    names != [] && |fragments| == |names|
  }

  /** Names and fragments alternate: one more fragment than names, or as many. */
  predicate Alternating(fragments: seq<string>, names: seq<string>) {
    |names| <= |fragments| <= |names| + 1
  }

  predicate Distinct(names: seq<string>) {
    forall i, j :: 0 <= i < j < |names| ==> names[i] != names[j]
  }

  function Bind(params: map<string, string>, names: seq<string>, values: map<string, string>): map<string, string>
    requires Covers(values, names)
    decreases |names|
  {
    if names == [] then params else Bind(params[names[0] := values[names[0]]], names[1..], values)
  }

  lemma {:induction false} BindIs(params: map<string, string>, names: seq<string>, values: map<string, string>,
      n: string)
    requires Covers(values, names)
    ensures n in Bind(params, names, values) <==> n in params || n in names
    ensures n in names ==> n in values && Bind(params, names, values)[n] == values[n]
    ensures n in params && n !in names ==> Bind(params, names, values)[n] == params[n]
    decreases |names|
  {
    if names != [] {
      BindIs(params[names[0] := values[names[0]]], names[1..], values, n);
    }
  }

  /** Text that a rendering may be followed by: a separator behind a last parameter. */
  predicate Tolerated(fragments: seq<string>, names: seq<string>, extra: string) {
    extra == "" || (EndsInParam(fragments, names) && extra == [SEPARATOR])
  }

  lemma CutFirst(path: string, pos: nat, f: string, tail: string)
    requires pos <= |path| && path[pos..] == f + tail
    ensures pos + |f| <= |path| && path[pos + |f|..] == tail
    ensures path[pos..pos + |f|] == f && PastFragment(path, pos, f) == Some(pos + |f|)
  {
    var s := path[pos..];
    assert |s| == |f| + |tail|;
    assert path[pos..pos + |f|] == s[..|f|];
    assert path[pos + |f|..] == s[|f|..];
    PastFragmentIs(path, pos, f);
  }

  /** A slash-free value at `p`, ending the path or followed by a separator. */
  lemma SeekValue(path: string, p: nat, v: string, tail: string)
    requires p <= |path| && path[p..] == v + tail
    requires Lacks(v, SEPARATOR) && (tail == "" || tail[0] == SEPARATOR)
    ensures Seek(path, SEPARATOR, p) == p + |v|
  {
    var e := p + |v|;
    CutFirst(path, p, v, tail);
    forall i | p <= i < e ensures path[i] != SEPARATOR {
      assert path[i] == path[p..e][i - p];
    }
    if tail != "" {
      assert path[e] == path[e..][0];
    }
    SeekIs(path, SEPARATOR, p, e);
  }

  lemma CutSeparator(path: string, e: nat, tail: string)
    requires e <= |path| && path[e..] == [SEPARATOR] + tail
    ensures e < |path| && path[e] == SEPARATOR && path[e + 1..] == tail
  {
    CutFirst(path, e, [SEPARATOR], tail);
    assert path[e] == path[e..][0];
  }

  /** A round over a fragment and a value. */
  lemma RoundTakes(f: string, names: seq<string>, path: string, pos: nat, params: map<string, string>, v: string,
      tail: string)
    requires names != [] && names[0] !in params
    requires pos <= |path| && path[pos..] == f + (v + tail)
    requires Lacks(v, SEPARATOR) && (tail == "" || tail[0] == SEPARATOR)
    ensures pos + |f| + |v| <= |path| && path[pos + |f| + |v|..] == tail
    ensures Round(f, names, path, pos, params) == Some((pos + |f| + |v| + 1, params[names[0] := v]))
  {
    CutFirst(path, pos, f, v + tail);
    CutFirst(path, pos + |f|, v, tail);
    SeekValue(path, pos + |f|, v, tail);
  }

  function Behind(fragments: seq<string>, names: seq<string>, values: map<string, string>, extra: string): string
    requires names != [] && fragments != [] && Covers(values, names)
  {
    (if |fragments| > 1 then [SEPARATOR] + Render(fragments[1..], names[1..], values) else "") + extra
  }

  lemma RenderSplit(fragments: seq<string>, names: seq<string>, values: map<string, string>, extra: string)
    requires names != [] && fragments != [] && Covers(values, names) && Tolerated(fragments, names, extra)
    ensures Render(fragments, names, values) + extra
         == fragments[0] + (values[names[0]] + Behind(fragments, names, values, extra))
    ensures var b := Behind(fragments, names, values, extra); b == "" || b[0] == SEPARATOR
  {
    var b := if |fragments| > 1 then [SEPARATOR] + Render(fragments[1..], names[1..], values) else "";
    assert fragments[0] + values[names[0]] + b + extra == fragments[0] + (values[names[0]] + (b + extra));
  }

  lemma StaticEnd(fragments: seq<string>, values: map<string, string>, path: string, pos: nat,
      params: map<string, string>)
    requires |fragments| <= 1 && pos <= |path|
    ensures Render(fragments, [], values) == if fragments == [] then "" else fragments[0]
    ensures path[pos..] == Render(fragments, [], values) ==> MatchFrom(fragments, [], path, pos, params) == Some(params)
    ensures MatchFrom(fragments, [], path, pos, params).Some? && AllCompared(fragments)
        ==> MatchFrom(fragments, [], path, pos, params) == Some(params) && path[pos..] == Render(fragments, [], values)
  {
    if fragments != [] {
      var f := fragments[0];
      assert fragments[1..] == [];
      if path[pos..] == f {
        assert path[pos..] == f + "";
        CutFirst(path, pos, f, "");
      }
      if MatchFrom(fragments, [], path, pos, params).Some? && Compared(f) {
        PastFragmentMeans(path, pos, f);
      }
    }
  }

  lemma StaticMatches(fragments: seq<string>, values: map<string, string>, extra: string, path: string, pos: nat,
      params: map<string, string>)
    requires |fragments| <= 1 && Tolerated(fragments, [], extra)
    requires pos <= |path| && path[pos..] == Render(fragments, [], values) + extra
    ensures MatchFrom(fragments, [], path, pos, params) == Some(params)
  {
    StaticEnd(fragments, values, path, pos, params);
    assert path[pos..] == Render(fragments, [], values);
  }

  /** The first round over a rendering leaves the rendering of the rest. */
  lemma RenderRound(fragments: seq<string>, names: seq<string>, values: map<string, string>, extra: string,
      path: string, pos: nat, params: map<string, string>) returns (e: nat)
    requires fragments != [] && names != [] && names[0] !in params
    requires Covers(values, names) && Covers(values, names[1..]) && Tolerated(fragments, names, extra)
    requires pos <= |path| && path[pos..] == Render(fragments, names, values) + extra
    ensures e <= |path|
    ensures Round(fragments[0], names, path, pos, params) == Some((e + 1, params[names[0] := values[names[0]]]))
    ensures |fragments| == 1 ==> e + 1 >= |path|
    ensures |fragments| > 1 ==> e < |path| && path[e + 1..] == Render(fragments[1..], names[1..], values) + extra
  {
    var v := values[names[0]];
    var tail := Behind(fragments, names, values, extra);
    e := pos + |fragments[0]| + |v|;
    RenderSplit(fragments, names, values, extra);
    RoundTakes(fragments[0], names, path, pos, params, v, tail);
    if |fragments| > 1 {
      var more := Render(fragments[1..], names[1..], values) + extra;
      assert tail == [SEPARATOR] + more;
      CutSeparator(path, e, more);
    } else {
      assert tail == extra;
    }
  }

  /** The names are distinct and none is taken. */
  predicate Fresh(names: seq<string>, taken: set<string>) {
    names == [] || (names[0] !in taken && Fresh(names[1..], taken + {names[0]}))
  }

  lemma MatchStep(fragments: seq<string>, names: seq<string>, path: string, pos: nat, params: map<string, string>,
      q: nat, more: map<string, string>)
    requires fragments != [] && names != [] && Round(fragments[0], names, path, pos, params) == Some((q, more))
    ensures MatchFrom(fragments, names, path, pos, params) == MatchFrom(fragments[1..], names[1..], path, q, more)
  {
  }

  /** Binding the first of several names. */
  lemma BindStep(names: seq<string>, values: map<string, string>, params: map<string, string>)
      returns (v: string, more: map<string, string>)
    requires names != [] && Covers(values, names) && Fresh(names, params.Keys)
    ensures names[0] in values && v == values[names[0]] == ValueOf(values, names[0]) && more == params[names[0] := v]
    ensures names[0] !in params && Lacks(v, SEPARATOR)
    ensures Covers(values, names[1..]) && Fresh(names[1..], more.Keys)
    ensures Bind(params, names, values) == Bind(more, names[1..], values)
  {
    v := values[names[0]];
    more := params[names[0] := v];
    assert more.Keys == params.Keys + {names[0]};
  }

  lemma MatchEnd(path: string, pos: nat, params: map<string, string>)
    requires pos >= |path|
    ensures MatchFrom([], [], path, pos, params) == Some(params)
  {
  }

  lemma {:induction false} RenderMatches(fragments: seq<string>, names: seq<string>, values: map<string, string>,
      extra: string, path: string, pos: nat, params: map<string, string>)
    requires Covers(values, names) && Alternating(fragments, names) && Fresh(names, params.Keys)
    requires Tolerated(fragments, names, extra)
    requires pos <= |path| && path[pos..] == Render(fragments, names, values) + extra
    ensures MatchFrom(fragments, names, path, pos, params) == Some(Bind(params, names, values))
    decreases |fragments|
  {
    if names == [] {
      StaticMatches(fragments, values, extra, path, pos, params);
    } else {
      var v, more := BindStep(names, values, params);
      var e := RenderRound(fragments, names, values, extra, path, pos, params);
      MatchStep(fragments, names, path, pos, params, e + 1, more);
      hide MatchFrom, Round, Render, Covers, Fresh;
      if |fragments| > 1 {
        RenderMatches(fragments[1..], names[1..], values, extra, path, e + 1, more);
      } else {
        assert fragments[1..] == [] && names[1..] == [];
        MatchEnd(path, e + 1, more);
      }
    }
  }

  lemma {:induction false} TakenIsOther(names: seq<string>, taken: set<string>, n: string)
    requires Fresh(names, taken) && n in taken
    ensures n !in names
  {
    if names != [] {
      TakenIsOther(names[1..], taken + {names[0]}, n);
    }
  }

  /** A value for another name makes no difference. */
  lemma {:induction false} OtherName(fragments: seq<string>, names: seq<string>, values: map<string, string>,
      n: string, v: string, params: map<string, string>)
    requires Covers(values, names) && n !in names
    ensures Covers(values[n := v], names)
    ensures Render(fragments, names, values[n := v]) == Render(fragments, names, values)
    ensures Bind(params, names, values[n := v]) == Bind(params, names, values)
    decreases |fragments| + |names|
  {
    if names != [] {
      OtherName(fragments, names[1..], values, n, v, params[names[0] := values[names[0]]]);
      if fragments != [] {
        OtherName(fragments[1..], names[1..], values, n, v, params);
      }
    } else if fragments != [] {
      OtherName(fragments[1..], [], values, n, v, params);
    }
  }

  /** A value for the first name joins values for the others. */
  lemma AddFirst(fragments: seq<string>, names: seq<string>, later: map<string, string>, v: string,
      params: map<string, string>) returns (values: map<string, string>)
    requires names != [] && Fresh(names, params.Keys) && Covers(later, names[1..]) && Lacks(v, SEPARATOR)
    ensures Covers(values, names) && values[names[0]] == v
    ensures Render(fragments, names[1..], values) == Render(fragments, names[1..], later)
    ensures Bind(params, names, values) == Bind(params[names[0] := v], names[1..], later)
  {
    values := later[names[0] := v];
    TakenIsOther(names[1..], params.Keys + {names[0]}, names[0]);
    OtherName(fragments, names[1..], later, names[0], v, params[names[0] := v]);
  }

  lemma ValueRead(path: string, p: nat) returns (e: nat, v: string)
    requires p <= |path|
    ensures p <= e <= |path| && e == Seek(path, SEPARATOR, p) && v == path[p..e]
    ensures Lacks(v, SEPARATOR) && path[p..] == v + path[e..]
    ensures e < |path| ==> path[e..] == [SEPARATOR] + path[e + 1..]
  {
    e := Seek(path, SEPARATOR, p);
    v := path[p..e];
    SeekSkips(path, SEPARATOR, p);
    assert path[p..] == v + path[e..];
  }

  /** What one successful round has read. */
  lemma RoundRead(f: string, names: seq<string>, path: string, pos: nat, params: map<string, string>)
      returns (e: nat, v: string)
    requires names != [] && names[0] !in params && Compared(f)
    requires pos <= |path| && Round(f, names, path, pos, params).Some?
    ensures Lacks(v, SEPARATOR) && e <= |path| && path[pos..] == f + (v + path[e..])
    ensures Round(f, names, path, pos, params) == Some((e + 1, params[names[0] := v]))
    ensures e < |path| ==> path[e..] == [SEPARATOR] + path[e + 1..]
  {
    PastFragmentMeans(path, pos, f);
    e, v := ValueRead(path, pos + |f|);
  }

  /** Nothing matches from behind the end of the path. */
  lemma NoneBeyond(fragments: seq<string>, names: seq<string>, path: string, params: map<string, string>)
    requires fragments != []
    ensures MatchFrom(fragments, names, path, |path| + 1, params) == None
  {
  }

  lemma JoinFirst(fragments: seq<string>, names: seq<string>, later: map<string, string>, v: string, extra: string,
      rest: string, params: map<string, string>) returns (values: map<string, string>)
    requires |fragments| > 1 && Alternating(fragments, names) && names != [] && Fresh(names, params.Keys)
    requires Covers(later, names[1..]) && Lacks(v, SEPARATOR) && Tolerated(fragments[1..], names[1..], extra)
    requires rest == Render(fragments[1..], names[1..], later) + extra
    ensures Covers(values, names) && Tolerated(fragments, names, extra)
    ensures Render(fragments, names, values) + extra == fragments[0] + (v + ([SEPARATOR] + rest))
    ensures Bind(params, names, values) == Bind(params[names[0] := v], names[1..], later)
  {
    values := AddFirst(fragments[1..], names, later, v, params);
    RenderSplit(fragments, names, values, extra);
    assert Behind(fragments, names, values, extra) == [SEPARATOR] + rest;
  }

  /** Whatever matches is a rendering of the values bound. */
  lemma {:induction false} MatchRenders(fragments: seq<string>, names: seq<string>, path: string, pos: nat,
      params: map<string, string>) returns (values: map<string, string>, extra: string)
    requires Alternating(fragments, names) && Fresh(names, params.Keys)
    requires AllCompared(fragments)
    requires pos <= |path| && MatchFrom(fragments, names, path, pos, params).Some?
    ensures Covers(values, names) && Tolerated(fragments, names, extra)
    ensures path[pos..] == Render(fragments, names, values) + extra
    ensures MatchFrom(fragments, names, path, pos, params) == Some(Bind(params, names, values))
    decreases |fragments|
  {
    if names == [] {
      values, extra := map[], "";
      StaticEnd(fragments, values, path, pos, params);
    } else {
      var e, v := RoundRead(fragments[0], names, path, pos, params);
      if |fragments| == 1 {
        values, extra := LastValue(fragments, names, path, pos, params, e, v);
      } else {
        var more := params[names[0] := v];
        NoneBeyond(fragments[1..], names[1..], path, more);
        assert more.Keys == params.Keys + {names[0]};
        values, extra := MatchRenders(fragments[1..], names[1..], path, e + 1, more);
        values := JoinFirst(fragments, names, values, v, extra, path[e + 1..], params);
      }
    }
  }

  lemma LastValue(fragments: seq<string>, names: seq<string>, path: string, pos: nat, params: map<string, string>,
      e: nat, v: string) returns (values: map<string, string>, extra: string)
    requires |fragments| == |names| == 1 && Lacks(v, SEPARATOR)
    requires pos <= |path| && e <= |path| && path[pos..] == fragments[0] + (v + path[e..])
    requires e < |path| ==> path[e..] == [SEPARATOR] + path[e + 1..]
    requires Round(fragments[0], names, path, pos, params) == Some((e + 1, params[names[0] := v]))
    requires MatchFrom(fragments, names, path, pos, params).Some?
    ensures Covers(values, names) && Tolerated(fragments, names, extra)
    ensures path[pos..] == Render(fragments, names, values) + extra
    ensures MatchFrom(fragments, names, path, pos, params) == Some(Bind(params, names, values))
  {
    values, extra := map[names[0] := v], path[e..];
    assert e + 1 >= |path|;
    assert Render(fragments, names, values) == fragments[0] + v;
    assert fragments[0] + v + extra == fragments[0] + (v + extra);
  }

  // ---------- patterns against paths ----------

  lemma {:induction false} PatternAlternates(pattern: string, pos: nat)
    ensures Alternating(Fragments(pattern, pos), Names(pattern, pos))
    ensures pos < |pattern| ==> Fragments(pattern, pos) != []
    decreases |pattern| + 1 - pos
  {
    var m := Seek(pattern, MARKER, pos);
    if m < |pattern| {
      PatternAlternates(pattern, NameEnd(pattern, m) + 1);
    }
  }

  lemma {:induction false} NoRepeatIs(names: seq<string>, n: nat)
    requires n <= |names|
    ensures NoRepeat(names, n) <==> Distinct(names[..n])
  {
    if n > 0 {
      NoRepeatIs(names, n - 1);
      var init, last := names[..n - 1], names[n - 1];
      assert names[..n] == init + [last];
      if last in init {
        var i :| 0 <= i < |init| && init[i] == last;
        assert names[..n][i] == names[..n][n - 1];
      } else if Distinct(names[..n]) {
        assert forall i :: 0 <= i < n - 1 ==> names[..n][i] == init[i];
      }
    }
  }

  /** The constructor refuses exactly the patterns that repeat a name. */
  lemma RefusesExactly(pattern: string)
    ensures Compiled(pattern).Ok? <==> Distinct(Names(pattern, 0))
  {
    var names := Names(pattern, 0);
    var r := FirstRepeat(names, 0);
    assert names[..|names|] == names;
    NoRepeatIs(names, |names|);
    if NoRepeat(names, |names|) {
      FirstRepeatIs(names, 0, |names|);
    }
  }

  lemma {:induction false} DistinctAreFresh(names: seq<string>, taken: set<string>)
    requires Distinct(names) && forall i :: 0 <= i < |names| ==> names[i] !in taken
    ensures Fresh(names, taken)
  {
    if names != [] {
      forall i | 0 <= i < |names| - 1 ensures names[1..][i] !in taken + {names[0]} {
        assert names[1..][i] == names[i + 1];
      }
      DistinctAreFresh(names[1..], taken + {names[0]});
    }
  }

  /** Nothing but an optional separator stands behind the last parameter. */
  predicate ParamLast(pattern: string, pos: nat) {
    EndsInParam(Fragments(pattern, pos), Names(pattern, pos))
  }

  predicate EndsInSlash(pattern: string) {
    pattern != "" && pattern[|pattern| - 1] == SEPARATOR
  }

  function TrailingSlash(pattern: string, pos: nat): string {
    if ParamLast(pattern, pos) && EndsInSlash(pattern) then [SEPARATOR] else ""
  }

  /** The pattern ends behind the parameter at `m`, or behind the separator that follows it. */
  lemma SubstituteEnd(pattern: string, pos: nat, m: nat, values: map<string, string>)
    requires pos <= |pattern| && m == Seek(pattern, MARKER, pos) < |pattern|
    requires NameEnd(pattern, m) + 1 >= |pattern| && Covers(values, Names(pattern, pos))
    ensures Substitute(pattern, pos, values)
         == Render(Fragments(pattern, pos), Names(pattern, pos), values) + TrailingSlash(pattern, pos)
  {
    var e := NameEnd(pattern, m);
    NamesStep(pattern, pos, m);
    FragmentsStep(pattern, pos, m);
    assert Names(pattern, e + 1) == [] && Fragments(pattern, e + 1) == [];
    assert ParamLast(pattern, pos);
    if e < |pattern| {
      assert Substitute(pattern, e + 1, values) == "";
    } else {
      NameHasNoSlash(pattern, m);
    }
  }

  lemma NameHasNoSlash(pattern: string, m: nat)
    requires m < |pattern| && pattern[m] == MARKER && NameEnd(pattern, m) == |pattern|
    ensures !EndsInSlash(pattern)
  {
    SeekSkips(pattern, SEPARATOR, m + 1);
  }

  lemma Glue(head: string, sub: string, rest: string, extra: string)
    requires sub == rest + extra
    ensures Joined(head, true, sub) == Joined(head, true, rest) + extra
  {
  }

  lemma LengthStep(pattern: string, pos: nat, m: nat)
    requires m == Seek(pattern, MARKER, pos) < |pattern|
    ensures |Fragments(pattern, pos)| == 1 + |Fragments(pattern, NameEnd(pattern, m) + 1)|
    ensures |Names(pattern, pos)| == 1 + |Names(pattern, NameEnd(pattern, m) + 1)|
  {
  }

  lemma SlashStep(pattern: string, pos: nat, m: nat)
    requires pos <= |pattern| && m == Seek(pattern, MARKER, pos) < |pattern| && NameEnd(pattern, m) + 1 < |pattern|
    ensures TrailingSlash(pattern, pos) == TrailingSlash(pattern, NameEnd(pattern, m) + 1)
    ensures |Fragments(pattern, pos)| > 1
  {
    LengthStep(pattern, pos, m);
    PatternAlternates(pattern, NameEnd(pattern, m) + 1);
  }

  lemma SubstituteStatic(pattern: string, pos: nat, values: map<string, string>)
    requires pos <= |pattern| && Seek(pattern, MARKER, pos) == |pattern|
    ensures Substitute(pattern, pos, values)
         == Render(Fragments(pattern, pos), Names(pattern, pos), values) + TrailingSlash(pattern, pos)
  {
    assert Names(pattern, pos) == [];
    assert Fragments(pattern, pos) == if pos < |pattern| then [pattern[pos..]] else [];
  }

  ghost predicate Rendered(pattern: string, pos: nat, values: map<string, string>) {
    && pos <= |pattern| && Covers(values, Names(pattern, pos))
    && Substitute(pattern, pos, values)
       == Render(Fragments(pattern, pos), Names(pattern, pos), values) + TrailingSlash(pattern, pos)
  }

  /** One more fragment, value and separator in front. */
  lemma SubstituteMore(pattern: string, pos: nat, m: nat, values: map<string, string>)
    requires pos <= |pattern| && m == Seek(pattern, MARKER, pos) < |pattern|
    requires NameEnd(pattern, m) + 1 < |pattern| && Covers(values, Names(pattern, pos))
    requires Rendered(pattern, NameEnd(pattern, m) + 1, values)
    ensures Rendered(pattern, pos, values)
  {
    hide Substitute, Render, Names, Fragments, TrailingSlash;
    var e := NameEnd(pattern, m);
    var head := pattern[pos..m] + ValueOf(values, NameAt(pattern, m));
    SubstituteUnfold(pattern, pos, m, values);
    SlashStep(pattern, pos, m);
    RenderUnfold(pattern, pos, m, values);
    Glue(head, Substitute(pattern, e + 1, values),
      Render(Fragments(pattern, e + 1), Names(pattern, e + 1), values), TrailingSlash(pattern, pos));
  }

  lemma SubstituteUnfold(pattern: string, pos: nat, m: nat, values: map<string, string>)
    requires pos <= |pattern| && m == Seek(pattern, MARKER, pos) < |pattern| && NameEnd(pattern, m) < |pattern|
    ensures Substitute(pattern, pos, values)
         == Joined(pattern[pos..m] + ValueOf(values, NameAt(pattern, m)), NameEnd(pattern, m) < |pattern|,
                   Substitute(pattern, NameEnd(pattern, m) + 1, values))
  {
  }

  lemma RenderUnfold(pattern: string, pos: nat, m: nat, values: map<string, string>)
    requires pos <= |pattern| && m == Seek(pattern, MARKER, pos) < |pattern| && |Fragments(pattern, pos)| > 1
    requires Covers(values, Names(pattern, pos)) && Covers(values, Names(pattern, NameEnd(pattern, m) + 1))
    ensures Render(Fragments(pattern, pos), Names(pattern, pos), values)
         == Joined(pattern[pos..m] + ValueOf(values, NameAt(pattern, m)), true,
                   Render(Fragments(pattern, NameEnd(pattern, m) + 1), Names(pattern, NameEnd(pattern, m) + 1), values))
  {
    NamesStep(pattern, pos, m);
    FragmentsStep(pattern, pos, m);
  }

  lemma {:induction false} SubstituteIsRender(pattern: string, pos: nat, values: map<string, string>)
    requires pos <= |pattern| && Covers(values, Names(pattern, pos))
    ensures Rendered(pattern, pos, values)
    decreases |pattern| - pos
  {
    var m := Seek(pattern, MARKER, pos);
    if m == |pattern| {
      SubstituteStatic(pattern, pos, values);
    } else if NameEnd(pattern, m) + 1 >= |pattern| {
      SubstituteEnd(pattern, pos, m, values);
    } else {
      NamesStep(pattern, pos, m);
      FragmentsStep(pattern, pos, m);
      SubstituteIsRender(pattern, NameEnd(pattern, m) + 1, values);
      SubstituteMore(pattern, pos, m, values);
    }
  }

  /** The path is the pattern with values put in, up to a separator at the end behind a last parameter. */
  predicate Fits(pattern: string, values: map<string, string>, path: string)
    requires Covers(values, Names(pattern, 0))
  {
    var sub := Substitute(pattern, 0, values);
    path == sub
    || (ParamLast(pattern, 0) && if EndsInSlash(pattern) then path + [SEPARATOR] == sub else path == sub + [SEPARATOR])
  }

  lemma FitsIsRender(pattern: string, values: map<string, string>, path: string, extra: string)
    requires Covers(values, Names(pattern, 0)) && Tolerated(Fragments(pattern, 0), Names(pattern, 0), extra)
    ensures path == Render(Fragments(pattern, 0), Names(pattern, 0), values) + extra ==> Fits(pattern, values, path)
  {
    SubstituteIsRender(pattern, 0, values);
    var r := Render(Fragments(pattern, 0), Names(pattern, 0), values);
    assert r + "" == r;
  }

  lemma RenderOfFits(pattern: string, values: map<string, string>, path: string) returns (extra: string)
    requires Covers(values, Names(pattern, 0)) && Fits(pattern, values, path)
    ensures Tolerated(Fragments(pattern, 0), Names(pattern, 0), extra)
    ensures path == Render(Fragments(pattern, 0), Names(pattern, 0), values) + extra
  {
    SubstituteIsRender(pattern, 0, values);
    var r := Render(Fragments(pattern, 0), Names(pattern, 0), values);
    assert r + "" == r;
    if path == Substitute(pattern, 0, values) {
      extra := TrailingSlash(pattern, 0);
    } else if EndsInSlash(pattern) {
      extra := "";
      assert path == (path + [SEPARATOR])[..|path|];
      assert r == (r + [SEPARATOR])[..|r|];
    } else {
      extra := [SEPARATOR];
    }
  }

  // ---------- main results ----------

  lemma BindAll(names: seq<string>, values: map<string, string>)
    requires Covers(values, names)
    ensures var bound := Bind(map[], names, values);
            && (forall n :: n in bound <==> n in names)
            && (forall n :: n in names ==> bound[n] == ValueOf(values, n))
  {
    forall n ensures n in Bind(map[], names, values) <==> n in names {
      BindIs(map[], names, values, n);
    }
    forall n | n in names ensures Bind(map[], names, values)[n] == ValueOf(values, n) {
      BindIs(map[], names, values, n);
    }
  }

  /** Matching inverts substitution: the path made from slash-free values is accepted and yields those values. */
  lemma MatchInvertsSubstitution(pattern: string, values: map<string, string>, path: string)
    requires Compiled(pattern).Ok? && Covers(values, Names(pattern, 0)) && Fits(pattern, values, path)
    ensures Matched(Compiled(pattern).value, path) == Some(Bind(map[], Names(pattern, 0), values))
    ensures var bound := Bind(map[], Names(pattern, 0), values);
            && (forall n :: n in bound <==> n in Names(pattern, 0))
            && (forall n :: n in Names(pattern, 0) ==> bound[n] == ValueOf(values, n))
  {
    var fragments, names := Fragments(pattern, 0), Names(pattern, 0);
    PatternAlternates(pattern, 0);
    NamesFresh(pattern);
    var extra := RenderOfFits(pattern, values, path);
    assert path[0..] == path;
    RenderMatches(fragments, names, values, extra, path, 0, map[]);
    BindAll(names, values);
  }

  lemma NamesFresh(pattern: string)
    requires Compiled(pattern).Ok?
    ensures var none: map<string, string> := map[]; Fresh(Names(pattern, 0), none.Keys)
  {
    RefusesExactly(pattern);
    var none: map<string, string> := map[];
    DistinctAreFresh(Names(pattern, 0), none.Keys);
  }

  /** And nothing else is accepted, if all fragments are compared whole: a match comes from values that fit. */
  lemma MatchesOnlyFits(pattern: string, path: string) returns (values: map<string, string>)
    requires AllCompared(Fragments(pattern, 0)) && Compiled(pattern).Ok? && Matched(Compiled(pattern).value, path).Some?
    ensures FitsWith(pattern, values, path)
    ensures Matched(Compiled(pattern).value, path) == Some(Bind(map[], Names(pattern, 0), values))
  {
    PatternAlternates(pattern, 0);
    NamesFresh(pattern);
    assert path[0..] == path;
    var extra;
    values, extra := MatchRenders(Fragments(pattern, 0), Names(pattern, 0), path, 0, map[]);
    FitsIsRender(pattern, values, path, extra);
  }

  predicate FitsWith(pattern: string, values: map<string, string>, path: string) {
    Covers(values, Names(pattern, 0)) && Fits(pattern, values, path)
  }

  // ---------- a NUL that ends a comparison early ----------

  lemma {:induction false} StrnEqualNul(path: string, pos: nat, fragment: string, i: nat, k: nat)
    requires i <= k < |fragment| && pos + |fragment| <= |path| && fragment[k] == NUL
    requires forall j :: 0 <= j <= k ==> path[pos + j] == fragment[j]
    ensures StrnEqual(path, pos, fragment, i)
    decreases k - i
  {
    if i < k {
      StrnEqualNul(path, pos, fragment, i + 1, k);
    }
  }

  /** The fragment with the byte behind its first NUL exchanged. */
  function Altered(f: string): (g: string)
    requires !Compared(f)
    ensures |g| == |f| && g != f
  {
    var k := IndexOf(f, NUL) + 1;
    f[k := if f[k] == 'x' then 'y' else 'x']
  }

  /** Matching takes the altered fragment for the fragment. */
  lemma AlteredMatches(f: string, rest: seq<string>, names: seq<string>, path: string, pos: nat,
      params: map<string, string>)
    requires !Compared(f) && pos + |f| <= |path| && path[pos..pos + |f|] == Altered(f)
    ensures MatchFrom([f] + rest, names, path, pos, params) == MatchFrom([Altered(f)] + rest, names, path, pos, params)
  {
    var g, k := Altered(f), IndexOf(f, NUL);
    forall j | 0 <= j <= k ensures path[pos + j] == f[j] {
      assert path[pos + j] == path[pos..pos + |f|][j] == g[j];
    }
    StrnEqualNul(path, pos, f, 0, k);
    PastFragmentIs(path, pos, g);
    assert Round(f, names, path, pos, params) == Round(g, names, path, pos, params);
    assert ([f] + rest)[1..] == rest && ([g] + rest)[1..] == rest;
  }

  /** A path with the first fragment that is not compared whole altered, and values put in. */
  function Forged(fragments: seq<string>, names: seq<string>, values: map<string, string>): string
    requires !AllCompared(fragments) && Alternating(fragments, names)
    decreases |fragments|
  {
    if !Compared(fragments[0]) then Render([Altered(fragments[0])] + fragments[1..], names, values)
    else
      ComparedLater(fragments);
      fragments[0] + (ValueOf(values, names[0]) + ([SEPARATOR] + Forged(fragments[1..], names[1..], values)))
  }

  lemma ComparedLater(fragments: seq<string>)
    requires !AllCompared(fragments) && Compared(fragments[0])
    ensures |fragments| > 1 && !AllCompared(fragments[1..])
  {
    var i :| 0 <= i < |fragments| && !Compared(fragments[i]);
    assert fragments[1..][i - 1] == fragments[i];
  }

  lemma ForgedHead(fragments: seq<string>, names: seq<string>, values: map<string, string>, path: string, pos: nat,
      params: map<string, string>)
    requires fragments != [] && !Compared(fragments[0]) && Alternating(fragments, names)
    requires Covers(values, names) && Fresh(names, params.Keys)
    requires pos <= |path| && path[pos..] == Render([Altered(fragments[0])] + fragments[1..], names, values)
    ensures MatchFrom(fragments, names, path, pos, params) == Some(Bind(params, names, values))
  {
    var f, g, rest := fragments[0], Altered(fragments[0]), fragments[1..];
    var forged := [g] + rest;
    var r := Render(forged, names, values);
    assert r + "" == r;
    StartsWithFirst(forged, names, values);
    assert path[pos..][..|g|] == path[pos..pos + |g|];
    hide Render, Altered, MatchFrom, Covers, Fresh, Bind;
    RenderMatches(forged, names, values, "", path, pos, params);
    AlteredMatches(f, rest, names, path, pos, params);
    assert [f] + rest == fragments;
  }

  lemma StartsWithFirst(fragments: seq<string>, names: seq<string>, values: map<string, string>)
    requires fragments != []
    ensures fragments[0] <= Render(fragments, names, values)
  {
  }

  /** The forged path is accepted. */
  lemma {:induction false} ForgedMatches(fragments: seq<string>, names: seq<string>, values: map<string, string>,
      path: string, pos: nat, params: map<string, string>)
    requires !AllCompared(fragments) && Alternating(fragments, names)
    requires Covers(values, names) && Fresh(names, params.Keys)
    requires pos <= |path| && path[pos..] == Forged(fragments, names, values)
    ensures MatchFrom(fragments, names, path, pos, params) == Some(Bind(params, names, values))
    decreases |fragments|
  {
    hide MatchFrom, Bind, Covers, Fresh, Forged, Render;
    if !Compared(fragments[0]) {
      assert Forged(fragments, names, values) == Render([Altered(fragments[0])] + fragments[1..], names, values) by {
        ForgedFirst(fragments, names, values);
      }
      ForgedHead(fragments, names, values, path, pos, params);
    } else {
      ComparedLater(fragments);
      var q, more := ForgedOn(fragments, names, values, path, pos, params);
      ForgedMatches(fragments[1..], names[1..], values, path, q, more);
    }
  }

  lemma ForgedFirst(fragments: seq<string>, names: seq<string>, values: map<string, string>)
    requires !AllCompared(fragments) && Alternating(fragments, names) && !Compared(fragments[0])
    ensures Forged(fragments, names, values) == Render([Altered(fragments[0])] + fragments[1..], names, values)
  {
  }

  /** A fragment that is compared whole, and the value behind it. */
  lemma ForgedOn(fragments: seq<string>, names: seq<string>, values: map<string, string>, path: string, pos: nat,
      params: map<string, string>) returns (q: nat, more: map<string, string>)
    requires |fragments| > 1 && Compared(fragments[0]) && !AllCompared(fragments) && !AllCompared(fragments[1..])
    requires Alternating(fragments, names) && Covers(values, names) && Fresh(names, params.Keys)
    requires pos <= |path| && path[pos..] == Forged(fragments, names, values)
    ensures q <= |path| && path[q..] == Forged(fragments[1..], names[1..], values)
    ensures MatchFrom(fragments, names, path, pos, params) == MatchFrom(fragments[1..], names[1..], path, q, more)
    ensures Covers(values, names[1..]) && Fresh(names[1..], more.Keys)
    ensures Bind(params, names, values) == Bind(more, names[1..], values)
  {
    ForgedUnfold(fragments, names, values);
    hide MatchFrom, Bind, Fresh, Forged, Compared, AllCompared;
    var v;
    v, more := BindStep(names, values, params);
    q := pos + |fragments[0]| + |v| + 1;
    RoundOn(fragments, names, v, Forged(fragments[1..], names[1..], values), path, pos, params);
  }

  lemma ForgedUnfold(fragments: seq<string>, names: seq<string>, values: map<string, string>)
    requires |fragments| > 1 && Compared(fragments[0]) && !AllCompared(fragments) && !AllCompared(fragments[1..])
    requires Alternating(fragments, names) && Covers(values, names)
    ensures Forged(fragments, names, values)
         == fragments[0] + (values[names[0]] + ([SEPARATOR] + Forged(fragments[1..], names[1..], values)))
  {
  }

  /** A round over a fragment, a value and a separator leaves what is behind them. */
  lemma RoundOn(fragments: seq<string>, names: seq<string>, v: string, later: string, path: string, pos: nat,
      params: map<string, string>)
    requires fragments != [] && names != [] && names[0] !in params && Lacks(v, SEPARATOR)
    requires pos <= |path| && path[pos..] == fragments[0] + (v + ([SEPARATOR] + later))
    ensures var e := pos + |fragments[0]| + |v|;
            && e < |path| && path[e + 1..] == later
            && MatchFrom(fragments, names, path, pos, params)
               == MatchFrom(fragments[1..], names[1..], path, e + 1, params[names[0] := v])
  {
    var e := pos + |fragments[0]| + |v|;
    hide MatchFrom, Round, Lacks, Seek;
    RoundTakes(fragments[0], names, path, pos, params, v, [SEPARATOR] + later);
    CutSeparator(path, e, later);
    MatchStep(fragments, names, path, pos, params, e + 1, params[names[0] := v]);
  }

  /** Slash-free values in front of a separator are read in one way only. */
  lemma ValueUnique(v: string, rest: string, v2: string, rest2: string)
    requires Lacks(v, SEPARATOR) && Lacks(v2, SEPARATOR)
    requires v + ([SEPARATOR] + rest) == v2 + ([SEPARATOR] + rest2)
    ensures v == v2 && rest == rest2
  {
    var s := v + ([SEPARATOR] + rest);
    assert s[0..] == s;
    SeekValue(s, 0, v, [SEPARATOR] + rest);
    SeekValue(s, 0, v2, [SEPARATOR] + rest2);
    assert s[..|v|] == v && s[..|v2|] == v2;
    assert s[|v| + 1..] == rest && s[|v2| + 1..] == rest2;
  }

  /** And it is no rendering, whatever the values. */
  lemma {:induction false} ForgedFitsNot(fragments: seq<string>, names: seq<string>, values: map<string, string>,
      other: map<string, string>, extra: string)
    requires !AllCompared(fragments) && Alternating(fragments, names)
    requires Covers(values, names) && Covers(other, names) && Tolerated(fragments, names, extra)
    ensures Forged(fragments, names, values) != Render(fragments, names, other) + extra
    decreases |fragments|
  {
    var forged, rendered := Forged(fragments, names, values), Render(fragments, names, other) + extra;
    if !Compared(fragments[0]) {
      StartsWithFirst(fragments, names, other);
      StartsWithFirst([Altered(fragments[0])] + fragments[1..], names, values);
      assert forged[..|fragments[0]|] != rendered[..|fragments[0]|];
    } else {
      ComparedLater(fragments);
      ForgedFitsNot(fragments[1..], names[1..], values, other, extra);
      if forged == rendered {
        ForgedPeels(fragments, names, values, other, extra);
      }
    }
  }

  lemma ForgedPeels(fragments: seq<string>, names: seq<string>, values: map<string, string>,
      other: map<string, string>, extra: string)
    requires !AllCompared(fragments) && Alternating(fragments, names) && Compared(fragments[0]) && |fragments| > 1
    requires Covers(values, names) && Covers(other, names) && Tolerated(fragments, names, extra)
    requires Forged(fragments, names, values) == Render(fragments, names, other) + extra
    ensures !AllCompared(fragments[1..])
    ensures Forged(fragments[1..], names[1..], values) == Render(fragments[1..], names[1..], other) + extra
  {
    ComparedLater(fragments);
    ForgedUnfold(fragments, names, values);
    RenderSplit(fragments, names, other, extra);
    var f, later := fragments[0], Forged(fragments[1..], names[1..], values);
    var more := Render(fragments[1..], names[1..], other) + extra;
    var v, v2 := values[names[0]], other[names[0]];
    assert Behind(fragments, names, other, extra) == [SEPARATOR] + more;
    assert Lacks(v, SEPARATOR) && Lacks(v2, SEPARATOR);
    hide Forged, Render, Behind, Lacks, Covers, Compared, AllCompared, Tolerated;
    SamePrefix(f, v + ([SEPARATOR] + later), v2 + ([SEPARATOR] + more));
    ValueUnique(v, later, v2, more);
  }

  /** What a pattern with such a fragment accepts besides: a path for any values, bound as usual, that no values fit. */
  lemma AcceptsForged(pattern: string, values: map<string, string>) returns (path: string)
    requires Compiled(pattern).Ok? && !AllCompared(Fragments(pattern, 0)) && Covers(values, Names(pattern, 0))
    ensures Matched(Compiled(pattern).value, path) == Some(Bind(map[], Names(pattern, 0), values))
    ensures !exists other :: FitsWith(pattern, other, path)
  {
    var fragments, names := Fragments(pattern, 0), Names(pattern, 0);
    PatternAlternates(pattern, 0);
    NamesFresh(pattern);
    path := Forged(fragments, names, values);
    assert path[0..] == path;
    ForgedMatches(fragments, names, values, path, 0, map[]);
    forall other ensures !FitsWith(pattern, other, path) {
      if FitsWith(pattern, other, path) {
        var extra := RenderOfFits(pattern, other, path);
        ForgedFitsNot(fragments, names, values, other, extra);
      }
    }
  }

  lemma {:induction false} AllEmpty(names: seq<string>) returns (values: map<string, string>)
    ensures Covers(values, names) && forall n :: n in values ==> values[n] == ""
  {
    if names == [] {
      values := map[];
    } else {
      var later := AllEmpty(names[1..]);
      values := later[names[0] := ""];
      StillCovers(later, names[0], names[1..]);
    }
  }

  lemma {:induction false} StillCovers(values: map<string, string>, n: string, names: seq<string>)
    requires Covers(values, names)
    ensures Covers(values[n := ""], names)
  {
    if names != [] {
      StillCovers(values, n, names[1..]);
    }
  }

  /** Which patterns accept exactly the paths that fit them: those of whose fragments none has a NUL before its last
      byte. */
  lemma MatchesExactly(pattern: string)
    requires Compiled(pattern).Ok?
    ensures (forall path :: Matched(Compiled(pattern).value, path).Some? ==>
               exists values :: FitsWith(pattern, values, path))
        <==> AllCompared(Fragments(pattern, 0))
  {
    if AllCompared(Fragments(pattern, 0)) {
      forall path | Matched(Compiled(pattern).value, path).Some?
        ensures exists values :: FitsWith(pattern, values, path)
      {
        var values := MatchesOnlyFits(pattern, path);
      }
    } else {
      var values := AllEmpty(Names(pattern, 0));
      var path := AcceptsForged(pattern, values);
    }
  }
}
