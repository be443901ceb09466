/** What percent-decoding makes of any text: escapes of two digits, escapes of four, and bytes that stand for
    themselves. */
module UrlTokens {
  import opened Text
  import opened UrlCoding

  // ---------- digits ----------

  predicate IsDigit(c: char) {
    '0' <= c <= '9' || 'a' <= c <= 'f' || 'A' <= c <= 'F'
  }

  function Digit(c: char): (v: nat)
    requires IsDigit(c)
    ensures v < 16
  {
    if c <= '9' then c as int - '0' as int
    else if c <= 'F' then 10 + (c as int - 'A' as int)
    else 10 + (c as int - 'a' as int)
  }

  lemma DigitIs(c: char)
    ensures IsDigit(c) <==> HexValue(c) < 16
    ensures IsDigit(c) ==> HexValue(c) == Digit(c)
  {
  }

  function TwoDigits(a: char, b: char): (v: nat)
    requires IsDigit(a) && IsDigit(b)
    ensures v < 256
  {
    Digit(a) * 16 + Digit(b)
  }

  function FourDigits(a: char, b: char, c: char, d: char): (v: nat)
    requires IsDigit(a) && IsDigit(b) && IsDigit(c) && IsDigit(d)
    ensures v < 0x10000
  {
    TwoDigits(a, b) * 256 + TwoDigits(c, d)
  }

  lemma FromHexTwo(s: string, i: nat)
    requires i + 1 < |s| && IsDigit(s[i]) && IsDigit(s[i + 1])
    ensures FromHex(s, i, 2, 0) == Some(TwoDigits(s[i], s[i + 1]))
  {
    var a, b := Digit(s[i]), Digit(s[i + 1]);
    DigitIs(s[i]);
    DigitIs(s[i + 1]);
    assert FromHex(s, i, 2, 0) == FromHex(s, i + 1, 1, a);
    assert FromHex(s, i + 1, 1, a) == FromHex(s, i + 2, 0, a * 16 + b);
  }

  lemma FromHexFour(s: string, i: nat)
    requires i + 3 < |s| && IsDigit(s[i]) && IsDigit(s[i + 1]) && IsDigit(s[i + 2]) && IsDigit(s[i + 3])
    ensures FromHex(s, i, 4, 0) == Some(FourDigits(s[i], s[i + 1], s[i + 2], s[i + 3]))
  {
    var a, b, c, d := Digit(s[i]), Digit(s[i + 1]), Digit(s[i + 2]), Digit(s[i + 3]);
    DigitIs(s[i]);
    DigitIs(s[i + 1]);
    DigitIs(s[i + 2]);
    DigitIs(s[i + 3]);
    var ab := a * 16 + b;
    var abc := ab * 16 + c;
    assert FromHex(s, i, 4, 0) == FromHex(s, i + 1, 3, a);
    assert FromHex(s, i + 1, 3, a) == FromHex(s, i + 2, 2, ab);
    assert FromHex(s, i + 2, 2, ab) == FromHex(s, i + 3, 1, abc);
    assert FromHex(s, i + 3, 1, abc) == FromHex(s, i + 4, 0, abc * 16 + d);
  }

  predicate DigitAt(s: string, k: int) {
    0 <= k < |s| && IsDigit(s[k])
  }

  /** Not `n` digits at `i`. */
  predicate Lacking(s: string, i: nat, n: nat) {
    exists k :: i <= k < i + n && !DigitAt(s, k)
  }

  lemma {:induction false} FromHexFails(s: string, i: nat, n: nat, val: nat)
    requires Lacking(s, i, n)
    ensures FromHex(s, i, n, val) == None
    decreases n
  {
    var k :| i <= k < i + n && !DigitAt(s, k);
    if i < |s| {
      DigitIs(s[i]);
    }
    if i < |s| && HexValue(s[i]) != 16 {
      assert DigitAt(s, i);
      FromHexFails(s, i + 1, n - 1, val * 16 + HexValue(s[i]));
    }
  }

  // ---------- UTF-8 ----------

  /** A lead byte of `n` bytes has `n` leading ones, the others begin with `10`; the rest of their bits is the code
      point, in the shortest form. Surrogates are not encoded. */
  predicate EncodesAs(code: nat, s: string) {
    && IsBytes(s)
    && match |s|
       case 0 => 0xD800 <= code <= 0xDFFF
       case 1 => code < 0x80 && s[0] as int == code
       case 2 => 0x80 <= code < 0x800 && Lead(s[0], 0xC0, 32) && Trails(s[1])
                 && code == (s[0] as int - 0xC0) * 64 + (s[1] as int - 0x80)
       case 3 => 0x800 <= code < 0x10000 && !(0xD800 <= code <= 0xDFFF)
                 && Lead(s[0], 0xE0, 16) && Trails(s[1]) && Trails(s[2])
                 && code == (s[0] as int - 0xE0) * 4096 + (s[1] as int - 0x80) * 64 + (s[2] as int - 0x80)
       case _ => false
  }

  predicate Lead(c: char, mark: nat, size: nat) {
    mark <= c as int < mark + size
  }

  predicate Trails(c: char) {
    0x80 <= c as int < 0xC0
  }

  lemma Utf8Encodes(code: nat)
    requires code < 0x10000
    ensures EncodesAs(code, ToUtf8(code))
  {
  }

  lemma EncodingUnique(code: nat, s: string, t: string)
    requires EncodesAs(code, s) && EncodesAs(code, t)
    ensures s == t
  {
    assert |s| == |t|;
    if |s| == 2 {
      assert s == [s[0], s[1]] && t == [t[0], t[1]];
    } else if |s| == 3 {
      assert s == [s[0], s[1], s[2]] && t == [t[0], t[1], t[2]];
    }
  }

  // ---------- texts ----------

  /** A byte that stands for itself, an escaped byte, or an escaped code point, with its digits as written. */
  datatype Token =
    | Raw(c: char)
    | Byte(a: char, b: char)
    | Wide(a: char, b: char, c: char, d: char)

  function Spelling(t: Token): (s: string)
    ensures s != ""
  {
    match t
    case Raw(c) => [c]
    case Byte(a, b) => ['%', a, b]
    case Wide(a, b, c, d) => ['%', 'u', a, b, c, d]
  }

  function Spelled(ts: seq<Token>): string {
    if ts == [] then "" else Spelling(ts[0]) + Spelled(ts[1..])
  }

  /** The digits are digits, and a percent sign that stands for itself is not in front of an escape. */
  predicate ReadsAs(ts: seq<Token>) {
    forall i :: 0 <= i < |ts| ==> ReadsOne(ts[i], Spelled(ts[i + 1..]))
  }

  predicate ReadsOne(t: Token, behind: string) {
    match t
    case Raw(c) =>
      c == '%' && behind != "" ==> if behind[0] == 'u' then Lacking(behind, 1, 4) else Lacking(behind, 0, 2)
    case Byte(a, b) => IsDigit(a) && IsDigit(b)
    case Wide(a, b, c, d) => IsDigit(a) && IsDigit(b) && IsDigit(c) && IsDigit(d)
  }

  /** What the token says, with a plus sign for a space where that is asked for. */
  ghost predicate Says(t: Token, plus: bool, s: string) {
    match t
    case Raw(c) => s == [if plus && c == '+' then ' ' else c]
    case Byte(a, b) => IsDigit(a) && IsDigit(b) && s == [TwoDigits(a, b) as char]
    case Wide(a, b, c, d) =>
      IsDigit(a) && IsDigit(b) && IsDigit(c) && IsDigit(d) && EncodesAs(FourDigits(a, b, c, d), s)
  }

  ghost predicate SayAll(ts: seq<Token>, plus: bool, out: seq<string>) {
    |out| == |ts| && forall i :: 0 <= i < |ts| ==> Says(ts[i], plus, out[i])
  }

  function Joined(out: seq<string>): string {
    if out == [] then "" else out[0] + Joined(out[1..])
  }

  // ---------- decoding ----------

  lemma LackingShift(t: string, j: nat, behind: string, i: nat, n: nat)
    requires j <= |t| && t[j..] == behind && Lacking(behind, i, n)
    ensures Lacking(t, j + i, n)
  {
    var k :| i <= k < i + n && !DigitAt(behind, k);
    assert k < |behind| ==> t[j + k] == behind[k];
    assert !DigitAt(t, j + k);
  }

  lemma RawDecodes(t: string, j: nat, c: char, behind: string, plus: bool)
    requires j < |t| && t[j] == c && t[j + 1..] == behind && ReadsOne(Raw(c), behind)
    ensures DecodeOne(t, j, plus) == ([if plus && c == '+' then ' ' else c], j + 1)
  {
    if c == '%' && behind != "" {
      assert t[j + 1] == behind[0];
      if behind[0] == 'u' {
        LackingShift(t, j + 1, behind, 1, 4);
        FromHexFails(t, j + 2, 4, 0);
      } else {
        LackingShift(t, j + 1, behind, 0, 2);
        FromHexFails(t, j + 1, 2, 0);
      }
    }
  }

  lemma ByteDecodes(t: string, j: nat, a: char, b: char, plus: bool)
    requires j + 2 < |t| && t[j] == '%' && t[j + 1] == a && t[j + 2] == b && IsDigit(a) && IsDigit(b)
    ensures DecodeOne(t, j, plus) == ([TwoDigits(a, b) as char], j + 3)
  {
    FromHexTwo(t, j + 1);
  }

  lemma WideDecodes(t: string, j: nat, a: char, b: char, c: char, d: char, plus: bool)
    requires j + 5 < |t| && t[j] == '%' && t[j + 1] == 'u'
    requires t[j + 2] == a && t[j + 3] == b && t[j + 4] == c && t[j + 5] == d
    requires IsDigit(a) && IsDigit(b) && IsDigit(c) && IsDigit(d)
    ensures DecodeOne(t, j, plus) == (ToUtf8(FourDigits(a, b, c, d)), j + 6)
  {
    FromHexFour(t, j + 2);
  }

  lemma TokenDecodes(t: string, j: nat, tok: Token, behind: string, plus: bool)
    requires j <= |t| && t[j..] == Spelling(tok) + behind && ReadsOne(tok, behind)
    ensures j + |Spelling(tok)| <= |t| && t[j + |Spelling(tok)|..] == behind
    ensures DecodeOne(t, j, plus).1 == j + |Spelling(tok)| && Says(tok, plus, DecodeOne(t, j, plus).0)
  {
    var s := Spelling(tok);
    CutPrefix(t, j, s, behind);
    assert forall k :: 0 <= k < |s| ==> t[j + k] == t[j..][k] == s[k];
    hide DecodeOne, IsDigit, Lacking;
    match tok
    case Raw(c) => RawDecodes(t, j, c, behind, plus);
    case Byte(a, b) => ByteDecodes(t, j, a, b, plus);
    case Wide(a, b, c, d) =>
      WideDecodes(t, j, a, b, c, d, plus);
      Utf8Encodes(FourDigits(a, b, c, d));
  }

  lemma {:induction false} DecodeFromTokens(t: string, j: nat, ts: seq<Token>, plus: bool) returns (out: seq<string>)
    requires j <= |t| && t[j..] == Spelled(ts) && ReadsAs(ts)
    ensures SayAll(ts, plus, out) && DecodeFrom(t, j, plus) == Joined(out)
    decreases |ts|
  {
    out := [];
    if ts != [] {
      var behind := Spelled(ts[1..]);
      assert ReadsOne(ts[0], behind);
      TokenDecodes(t, j, ts[0], behind, plus);
      assert forall i :: 0 <= i < |ts| - 1 ==> ts[1..][i] == ts[i + 1] && ts[1..][i + 1..] == ts[i + 2..];
      var more := DecodeFromTokens(t, j + |Spelling(ts[0])|, ts[1..], plus);
      out := [DecodeOne(t, j, plus).0] + more;
      assert out[1..] == more;
    }
  }

  /** Decoding says of each token in turn what it stands for. */
  lemma DecodeSays(ts: seq<Token>, plus: bool) returns (out: seq<string>)
    requires ReadsAs(ts)
    ensures SayAll(ts, plus, out) && DecodeUrl(Spelled(ts), plus) == Joined(out)
  {
    var t := Spelled(ts);
    assert t[0..] == t;
    out := DecodeFromTokens(t, 0, ts, plus);
  }

  /** A token says one thing only. */
  lemma SaysOnce(t: Token, plus: bool, s: string, s': string)
    requires Says(t, plus, s) && Says(t, plus, s')
    ensures s == s'
  {
    if t.Wide? {
      EncodingUnique(FourDigits(t.a, t.b, t.c, t.d), s, s');
    }
  }

  /** The token a text begins with. */
  lemma FirstToken(s: string) returns (tok: Token, behind: string)
    requires s != ""
    ensures s == Spelling(tok) + behind && ReadsOne(tok, behind)
  {
    tok, behind := Raw(s[0]), s[1..];
    if s[0] == '%' && |s| > 1 {
      if s[1] == 'u' {
        if !Lacking(behind, 1, 4) {
          assert DigitAt(behind, 1) && DigitAt(behind, 2) && DigitAt(behind, 3) && DigitAt(behind, 4);
          assert behind[1] == s[2] && behind[2] == s[3] && behind[3] == s[4] && behind[4] == s[5];
          tok, behind := Wide(s[2], s[3], s[4], s[5]), s[6..];
        }
      } else if !Lacking(behind, 0, 2) {
        assert DigitAt(behind, 0) && DigitAt(behind, 1);
        assert behind[0] == s[1] && behind[1] == s[2];
        tok, behind := Byte(s[1], s[2]), s[3..];
      }
    }
  }

  /** Every text is made of tokens, so that `DecodeSays` tells what any text decodes to. */
  lemma {:induction false} EveryTextReads(s: string) returns (ts: seq<Token>)
    ensures Spelled(ts) == s && ReadsAs(ts)
    decreases |s|
  {
    ts := [];
    if s != "" {
      var tok, behind := FirstToken(s);
      var more := EveryTextReads(behind);
      ts := [tok] + more;
      assert ts[1..] == more;
      forall i | 0 <= i < |ts| ensures ReadsOne(ts[i], Spelled(ts[i + 1..])) {
        if i > 0 {
          assert ts[i + 1..] == more[i..];
          assert ReadsOne(more[i - 1], Spelled(more[i..]));
        }
      }
    }
  }

  // ---------- encoding ----------

  const HEX: string := "0123456789ABCDEF"
  const MARKS: string := "-_.!~*'()"

  /** A letter, a digit or one of the marks is written as it is, any other byte as its two digits. */
  lemma EncodedByte(c: char)
    requires c as int < 256
    ensures Escape(c) == if IsAlnum(c) || c in MARKS then [c] else ['%', HEX[c as int / 16], HEX[c as int % 16]]
  {
    assert c in MARKS <==> exists i :: 0 <= i < 9 && MARKS[i] == c;
    assert MARKS == ['-', '_', '.', '!', '~', '*', '\'', '(', ')'];
    assert HEX == ['0', '1', '2', '3', '4', '5', '6', '7', '8', '9', 'A', 'B', 'C', 'D', 'E', 'F'];
  }

  lemma {:induction false} EncodeShift(a: string, b: string, i: nat)
    requires IsBytes(a) && IsBytes(b) && i <= |b|
    ensures IsBytes(a + b) && EncodeFrom(a + b, |a| + i) == EncodeFrom(b, i)
    decreases |b| - i
  {
    if i < |b| {
      EncodeShift(a, b, i + 1);
    }
  }

  lemma {:induction false} EncodeSplit(a: string, b: string, i: nat)
    requires IsBytes(a) && IsBytes(b) && i <= |a|
    ensures IsBytes(a + b) && EncodeFrom(a + b, i) == EncodeFrom(a, i) + EncodeFrom(b, 0)
    decreases |a| - i
  {
    if i == |a| {
      EncodeShift(a, b, 0);
    } else {
      EncodeSplit(a, b, i + 1);
    }
  }

  /** Texts are encoded byte by byte. */
  lemma EncodedBytes(a: string, c: char)
    requires IsBytes(a) && c as int < 256
    ensures EncodeQueryParam(a + [c]) == EncodeQueryParam(a) + Escape(c)
  {
    EncodeSplit(a, [c], 0);
    assert EncodeFrom([c], 0) == Escape(c) + EncodeFrom([c], 1);
  }
}
