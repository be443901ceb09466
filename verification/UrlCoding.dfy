/** Percent-encoding and decoding of query parameters, and query strings built from parameter lists. */
module UrlCoding {
  import opened Text

  predicate IsBytes(s: string) {
    forall i :: 0 <= i < |s| ==> s[i] as int < 256
  }

  // ---------- hexadecimal digits ----------

  /** Value of a hexadecimal digit, or 16 for any other byte. */
  function HexValue(c: char): (v: nat)
    ensures v <= 16
  {
    if '0' <= c <= '9' then c as int - '0' as int
    else if 'A' <= c <= 'F' then c as int - 'A' as int + 10
    else if 'a' <= c <= 'f' then c as int - 'a' as int + 10
    else 16
  }

  function UpperHex(v: nat): (c: char)
    requires v < 16
    ensures HexValue(c) == v
    ensures '0' <= c <= '9' || 'A' <= c <= 'F'
  {
    if v < 10 then ('0' as int + v) as char else ('A' as int + (v - 10)) as char
  }

  /** `cnt` digits starting at `i`, continuing the value `val`; reading past the end fails. */
  function FromHex(s: string, i: nat, cnt: nat, val: nat): Option<nat>
    decreases cnt
  {
    if cnt == 0 then Some(val)
    else if i >= |s| || HexValue(s[i]) == 16 then None
    else FromHex(s, i + 1, cnt - 1, val * 16 + HexValue(s[i]))
  }

  lemma FromHexBound(s: string, i: nat, cnt: nat, val: nat)
    requires FromHex(s, i, cnt, val).Some?
    ensures cnt == 2 && val == 0 ==> FromHex(s, i, cnt, val).value < 256
    ensures cnt == 4 && val == 0 ==> FromHex(s, i, cnt, val).value < 0x10000
  {
    if cnt == 2 && val == 0 {
      assert FromHex(s, i, 2, 0) == FromHex(s, i + 1, 1, HexValue(s[i]));
      assert FromHex(s, i + 1, 1, HexValue(s[i])) == FromHex(s, i + 2, 0, HexValue(s[i]) * 16 + HexValue(s[i + 1]));
    }
    if cnt == 4 && val == 0 {
      var a := HexValue(s[i]);
      assert FromHex(s, i, 4, 0) == FromHex(s, i + 1, 3, a);
      var b := a * 16 + HexValue(s[i + 1]);
      assert FromHex(s, i + 1, 3, a) == FromHex(s, i + 2, 2, b);
      var c := b * 16 + HexValue(s[i + 2]);
      assert FromHex(s, i + 2, 2, b) == FromHex(s, i + 3, 1, c);
      assert FromHex(s, i + 3, 1, c) == FromHex(s, i + 4, 0, c * 16 + HexValue(s[i + 3]));
    }
  }

  /** UTF-8 bytes of a code point below 0x10000; surrogates have none. */
  function ToUtf8(code: nat): string
    requires code < 0x10000
  {
    if code < 0x80 then [code as char]
    else if code < 0x800 then [(0xC0 + code / 64) as char, (0x80 + code % 64) as char]
    else if 0xD800 <= code < 0xE000 then []
    else [(0xE0 + code / 4096) as char, (0x80 + code / 64 % 64) as char, (0x80 + code % 64) as char]
  }

  // ---------- decoding ----------

  /** What one turn of the decoding loop emits at `i`, and where it goes on. */
  function DecodeOne(s: string, i: nat, plus: bool): (r: (string, nat))
    requires i < |s|
    ensures r.1 > i
  {
    if s[i] == '%' && i + 1 < |s| then
      if s[i + 1] == 'u' then
        var v := FromHex(s, i + 2, 4, 0);
        if v.Some? then
          FromHexBound(s, i + 2, 4, 0);
          (ToUtf8(v.value), i + 6)
        else ([s[i]], i + 1)
      else
        var v := FromHex(s, i + 1, 2, 0);
        if v.Some? then
          FromHexBound(s, i + 1, 2, 0);
          ([v.value as char], i + 3)
        else ([s[i]], i + 1)
    else if plus && s[i] == '+' then (" ", i + 1)
    else ([s[i]], i + 1)
  }

  function DecodeFrom(s: string, i: nat, plus: bool): string
    decreases |s| - i
  {
    if i >= |s| then ""
    else
      var (out, next) := DecodeOne(s, i, plus);
      out + DecodeFrom(s, next, plus)
  }

  function DecodeUrl(s: string, plus: bool): string {
    DecodeFrom(s, 0, plus)
  }

  lemma {:induction false} FromHexWithin(s: string, i: nat, cnt: nat, val: nat)
    requires FromHex(s, i, cnt, val).Some? && i <= |s|
    ensures i + cnt <= |s|
    decreases cnt
  {
    if cnt > 0 {
      FromHexWithin(s, i + 1, cnt - 1, val * 16 + HexValue(s[i]));
    }
  }

  lemma DecodeOneShrinks(s: string, i: nat, plus: bool)
    requires i < |s|
    ensures var (out, next) := DecodeOne(s, i, plus); next <= |s| && |out| <= next - i
  {
    if s[i] == '%' && i + 1 < |s| {
      if s[i + 1] == 'u' {
        if FromHex(s, i + 2, 4, 0).Some? {
          FromHexWithin(s, i + 2, 4, 0);
        }
      } else if FromHex(s, i + 1, 2, 0).Some? {
        FromHexWithin(s, i + 1, 2, 0);
      }
    }
  }

  /** Decoding never makes a text longer. */
  lemma {:induction false} DecodeShrinks(s: string, i: nat, plus: bool)
    requires i <= |s|
    ensures |DecodeFrom(s, i, plus)| <= |s| - i
    decreases |s| - i
  {
    if i < |s| {
      DecodeOneShrinks(s, i, plus);
      DecodeShrinks(s, DecodeOne(s, i, plus).1, plus);
    }
  }

  method DecodeUrlLoop(s: string, plus: bool) returns (result: string)
    ensures result == DecodeUrl(s, plus)
  {
    hide DecodeOne, FromHex;
    result := "";
    var i := 0;
    while i < |s|
      invariant 0 <= i
      invariant result + DecodeFrom(s, i, plus) == DecodeUrl(s, plus)
      decreases |s| - i
    {
      var (out, next) := DecodeOne(s, i, plus);
      assert result + (out + DecodeFrom(s, next, plus)) == result + out + DecodeFrom(s, next, plus);
      result := result + out;
      i := next;
    }
  }

  // ---------- encoding ----------

  predicate IsUnescaped(c: char) {
    IsAlnum(c) || c == '-' || c == '_' || c == '.' || c == '!' || c == '~' || c == '*'
    || c == '\'' || c == '(' || c == ')'
  }

  function Escape(c: char): string
    requires c as int < 256
  {
    if IsUnescaped(c) then [c] else ['%', UpperHex(c as int / 16), UpperHex(c as int % 16)]
  }

  function EncodeFrom(s: string, i: nat): string
    requires IsBytes(s) && i <= |s|
    decreases |s| - i
  {
    if i == |s| then "" else Escape(s[i]) + EncodeFrom(s, i + 1)
  }

  function EncodeQueryParam(s: string): string
    requires IsBytes(s)
  {
    EncodeFrom(s, 0)
  }

  method EncodeQueryParamLoop(value: string) returns (escaped: string)
    requires IsBytes(value)
    ensures escaped == EncodeQueryParam(value)
  {
    escaped := "";
    for i := 0 to |value|
      invariant escaped + EncodeFrom(value, i) == EncodeQueryParam(value)
    {
      var c := value[i];
      assert escaped + (Escape(c) + EncodeFrom(value, i + 1)) == escaped + Escape(c) + EncodeFrom(value, i + 1);
      if IsUnescaped(c) {
        escaped := escaped + [c];
      } else {
        escaped := escaped + ['%', UpperHex(c as int / 16), UpperHex(c as int % 16)];
      }
    }
  }

  lemma DecodeEscaped(t: string, j: nat, c: char, plus: bool)
    requires c as int < 256
    requires j + |Escape(c)| <= |t| && t[j..j + |Escape(c)|] == Escape(c)
    ensures DecodeOne(t, j, plus) == ([c], j + |Escape(c)|)
  {
    var e := Escape(c);
    assert t[j] == t[j..j + |e|][0] == e[0];
    if !IsUnescaped(c) {
      assert t[j + 1] == t[j..j + |e|][1] == e[1];
      assert t[j + 2] == t[j..j + |e|][2] == e[2];
      var hi := HexValue(t[j + 1]);
      assert FromHex(t, j + 1, 2, 0) == FromHex(t, j + 2, 1, hi);
      assert FromHex(t, j + 2, 1, hi) == FromHex(t, j + 3, 0, hi * 16 + HexValue(t[j + 2]));
    }
  }

  lemma {:induction false} DecodeTail(t: string, j: nat, s: string, i: nat, plus: bool)
    requires IsBytes(s) && i <= |s| && j <= |t|
    requires t[j..] == EncodeFrom(s, i)
    ensures DecodeFrom(t, j, plus) == s[i..]
    decreases |s| - i
  {
    hide DecodeFrom, DecodeOne, EncodeFrom, Escape;
    EncodeStep(s, i);
    if i == |s| {
      DecodeEnd(t, j, plus);
    } else {
      var e := Escape(s[i]);
      CutPrefix(t, j, e, EncodeFrom(s, i + 1));
      DecodeEscaped(t, j, s[i], plus);
      DecodeTail(t, j + |e|, s, i + 1, plus);
      DecodeStep(t, j, e, s[i], plus);
      assert s[i..] == [s[i]] + s[i + 1..];
    }
  }

  lemma EncodeStep(s: string, i: nat)
    requires IsBytes(s) && i <= |s|
    ensures EncodeFrom(s, i) == if i == |s| then "" else Escape(s[i]) + EncodeFrom(s, i + 1)
    ensures i < |s| ==> Escape(s[i]) != ""
  {
  }

  lemma DecodeEnd(t: string, j: nat, plus: bool)
    requires j >= |t|
    ensures DecodeFrom(t, j, plus) == ""
  {
  }

  lemma DecodeStep(t: string, j: nat, e: string, c: char, plus: bool)
    requires j < |t| && DecodeOne(t, j, plus) == ([c], j + |e|)
    ensures DecodeFrom(t, j, plus) == [c] + DecodeFrom(t, j + |e|, plus)
  {
  }

  /** Decoding inverts encoding for every byte string, whether or not '+' means a space. */
  lemma DecodeEncode(s: string, plus: bool)
    requires IsBytes(s)
    ensures DecodeUrl(EncodeQueryParam(s), plus) == s
  {
    var t := EncodeQueryParam(s);
    assert t[0..] == t && s[0..] == s;
    DecodeTail(t, 0, s, 0, plus);
  }

  /** Encoded text never contains a byte with a meaning of its own in a query string. */
  lemma {:induction false} EncodedAlphabet(s: string, i: nat)
    requires IsBytes(s) && i <= |s|
    ensures forall k :: 0 <= k < |EncodeFrom(s, i)| ==>
              IsUnescaped(EncodeFrom(s, i)[k]) || EncodeFrom(s, i)[k] == '%'
    decreases |s| - i
  {
    if i < |s| {
      EncodedAlphabet(s, i + 1);
    }
  }

  // ---------- a text that decodes to itself ----------

  lemma {:induction false} DecodePlainFrom(s: string, i: nat, plus: bool)
    requires forall k :: 0 <= k < |s| ==> IsUnescaped(s[k])
    requires i <= |s|
    ensures DecodeFrom(s, i, plus) == s[i..]
    decreases |s| - i
  {
    if i < |s| {
      DecodePlainFrom(s, i + 1, plus);
      assert s[i..] == [s[i]] + s[i + 1..];
    }
  }

  lemma DecodePlain(s: string, plus: bool)
    requires forall k :: 0 <= k < |s| ==> IsUnescaped(s[k])
    ensures DecodeUrl(s, plus) == s
  {
    DecodePlainFrom(s, 0, plus);
  }
}
