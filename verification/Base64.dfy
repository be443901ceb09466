/** Base64 encoding over a 32-bit accumulator that wraps around. */
module Base64 {
  import opened Text
  import opened UrlCoding

  const UPPER: string := "ABCDEFGHIJKLMNOPQRSTUVWXYZ"
  const LOWER: string := "abcdefghijklmnopqrstuvwxyz"
  const REST: string := "0123456789+/"
  const ALPHABET: string := UPPER + LOWER + REST

  /** Two's complement wrap-around of a 32-bit `int`. */
  function Wrap32(x: int): (r: int)
    ensures -0x8000_0000 <= r < 0x8000_0000
  {
    (x + 0x8000_0000) % 0x1_0000_0000 - 0x8000_0000
  }

  function Pow2(k: nat): (r: nat)
    ensures r > 0
  {
    if k == 0 then 1 else 2 * Pow2(k - 1)
  }

  /** The low six bits of `val >> shift`, shifting arithmetically. */
  function SixBits(val: int, shift: nat): (r: nat)
    ensures r < 64
  {
    val / Pow2(shift) % 64
  }

  /** The alphabet of Table 1 in RFC 4648, by ranges. */
  function Symbol(v: nat): char
    requires v < 64
  {
    if v < 26 then 'A' + v as char
    else if v < 52 then 'a' + (v - 26) as char
    else if v < 62 then '0' + (v - 52) as char
    else if v == 62 then '+'
    else '/'
  }

  // ---------- the definition, by groups of three bytes ----------

  function Group(a: nat, b: nat, c: nat): string
    requires a < 256 && b < 256 && c < 256
  {
    [Symbol(a / 4), Symbol(a % 4 * 16 + b / 16), Symbol(b % 16 * 4 + c / 64), Symbol(c % 64)]
  }

  /** The four symbols for the one, two or three bytes at `i`. */
  function Quad(s: string, i: nat): (q: string)
    requires IsBytes(s) && i < |s|
    ensures |q| == 4
  {
    if i + 1 == |s| then
      var a := s[i] as int;
      [Symbol(a / 4), Symbol(a % 4 * 16), '=', '=']
    else if i + 2 == |s| then
      var a, b := s[i] as int, s[i + 1] as int;
      [Symbol(a / 4), Symbol(a % 4 * 16 + b / 16), Symbol(b % 16 * 4), '=']
    else Group(s[i] as int, s[i + 1] as int, s[i + 2] as int)
  }

  function Next(s: string, i: nat): (n: nat)
    requires i <= |s|
    ensures n <= |s|
  {
    if i + 3 <= |s| then i + 3 else |s|
  }

  /** Encoding of the bytes from `i` on: full groups of three, then at most one padded group. */
  function Reference(s: string, i: nat): string
    requires IsBytes(s) && i <= |s|
    decreases |s| - i
  {
    if i == |s| then "" else Quad(s, i) + Reference(s, Next(s, i))
  }

  // ---------- the accumulator ----------

  lemma SixBitsIs(val: int)
    ensures SixBits(val, 0) == val % 64 && SixBits(val, 2) == val / 4 % 64
    ensures SixBits(val, 4) == val / 16 % 64 && SixBits(val, 6) == val / 64 % 64
  {
    assert Pow2(1) == 2 && Pow2(2) == 4 && Pow2(3) == 8 && Pow2(4) == 16 && Pow2(5) == 32 && Pow2(6) == 64;
  }

  lemma Mod64(z: int, t: int)
    ensures (64 * z + t) % 64 == t % 64
  {
  }

  lemma Mod4096(z: int, t: int)
    ensures (4096 * z + t) % 4096 == t % 4096
  {
  }

  /** Only the low twelve bits of the accumulator are ever read. */
  lemma OnlyLowBits(x: int)
    ensures x % 64 == x % 4096 % 64 && x / 4 % 64 == x % 4096 / 4 % 64
    ensures x / 16 % 64 == x % 4096 / 16 % 64 && x / 64 % 64 == x % 4096 / 64 % 64
  {
    var q, r := x / 4096, x % 4096;
    Mod64(64 * q, r);
    assert x / 4 == 1024 * q + r / 4;
    Mod64(16 * q, r / 4);
    assert x / 16 == 256 * q + r / 16;
    Mod64(4 * q, r / 16);
    assert x / 64 == 64 * q + r / 64;
    Mod64(q, r / 64);
  }

  /** Wrapping does not touch them. */
  lemma WrapLow(x: int)
    ensures Wrap32(x) % 4096 == x % 4096
  {
    var k := (x + 0x8000_0000) / 0x1_0000_0000;
    assert Wrap32(x) == 4096 * (-k * 0x10_0000) + x;
    Mod4096(-k * 0x10_0000, x);
  }

  /** The accumulator after taking in byte `c`. */
  function Push(val: int, c: nat): int { Wrap32(Wrap32(val * 256) + c) }

  lemma ShiftIn(val: int, c: nat)
    requires c < 256
    ensures (val * 256 + c) % 4096 == val % 16 * 256 + c
  {
    var q, r := val / 16, val % 16;
    assert val * 256 + c == 4096 * q + (r * 256 + c);
    Mod4096(q, r * 256 + c);
  }

  lemma Mod4096Plus(x: int, y: int, c: int)
    requires x % 4096 == y % 4096
    ensures (x + c) % 4096 == (y + c) % 4096
  {
    Mod4096(x / 4096, x % 4096 + c);
    Mod4096(y / 4096, y % 4096 + c);
  }

  lemma PushLow(val: int, c: nat)
    requires c < 256
    ensures Push(val, c) % 4096 == val % 16 * 256 + c
  {
    WrapLow(Wrap32(val * 256) + c);
    WrapLow(val * 256);
    Mod4096Plus(Wrap32(val * 256), val * 256, c);
    ShiftIn(val, c);
  }

  lemma Mod16(z: int, y: int, c: int)
    ensures (4096 * z + (y * 256 + c)) % 16 == c % 16
  {
    assert 4096 * z + (y * 256 + c) == 16 * (256 * z + 16 * y) + c;
    Mod16Plain(256 * z + 16 * y, c);
  }

  lemma Mod16Plain(z: int, c: int)
    ensures (16 * z + c) % 16 == c % 16
  {
  }

  lemma LowFour(val: int, c: nat)
    requires c < 256
    ensures Push(val, c) % 16 == c % 16
  {
    PushLow(val, c);
    var v := Push(val, c);
    var y := val % 16;
    assert v == 4096 * (v / 4096) + (y * 256 + c);
    Mod16(v / 4096, y, c);
  }

  // ---------- the symbols of a group ----------

  lemma SixBitsOf(v: int, low: nat)
    requires v % 4096 == low
    ensures SixBits(v, 0) == low % 64 && SixBits(v, 2) == low / 4 % 64
    ensures SixBits(v, 4) == low / 16 % 64 && SixBits(v, 6) == low / 64 % 64
  {
    SixBitsIs(v);
    OnlyLowBits(v);
  }

  lemma TopOfFirst(y: nat, a: nat)
    requires y < 16 && a < 256
    ensures (y * 256 + a) / 4 % 64 == a / 4
  {
    assert (y * 256 + a) / 4 == 64 * y + a / 4;
    Mod64(y, a / 4);
  }

  lemma TopOfSecond(a: nat, b: nat)
    requires b < 256
    ensures (a % 16 * 256 + b) / 16 % 64 == a % 4 * 16 + b / 16
  {
    var y := a % 16;
    assert (y * 256 + b) / 16 == 16 * y + b / 16;
    var z := y / 4;
    assert y == 4 * z + a % 4;
    Mod64(z, a % 4 * 16 + b / 16);
  }

  lemma TopOfThird(b: nat, c: nat)
    requires c < 256
    ensures (b % 16 * 256 + c) / 64 % 64 == b % 16 * 4 + c / 64 && (b % 16 * 256 + c) % 64 == c % 64
  {
    var y := b % 16;
    assert (y * 256 + c) / 64 == 4 * y + c / 64;
    Mod64(4 * y, c);
  }

  lemma FirstSymbol(val: int, a: nat)
    requires a < 256
    ensures SixBits(Push(val, a), 2) == a / 4
  {
    PushLow(val, a);
    SixBitsOf(Push(val, a), val % 16 * 256 + a);
    TopOfFirst(val % 16, a);
  }

  lemma SecondSymbol(val: int, a: nat, b: nat)
    requires a < 256 && b < 256 && val % 16 == a % 16
    ensures SixBits(Push(val, b), 4) == a % 4 * 16 + b / 16
  {
    PushLow(val, b);
    SixBitsOf(Push(val, b), a % 16 * 256 + b);
    TopOfSecond(a, b);
  }

  lemma ThirdAndFourth(val: int, b: nat, c: nat)
    requires b < 256 && c < 256 && val % 16 == b % 16
    ensures SixBits(Push(val, c), 6) == b % 16 * 4 + c / 64 && SixBits(Push(val, c), 0) == c % 64
  {
    PushLow(val, c);
    SixBitsOf(Push(val, c), b % 16 * 256 + c);
    TopOfThird(b, c);
  }

  /** The symbol emitted behind the last byte, whose accumulator ends in `x`. */
  lemma LastSymbol(val: int, x: nat)
    requires val % 16 == x % 16
    ensures SixBits(Wrap32(val * 256), 4) == x % 4 * 16 && SixBits(Wrap32(val * 256), 6) == x % 16 * 4
  {
    WrapLow(val * 256);
    ShiftIn(val, 0);
    SixBitsOf(Wrap32(val * 256), x % 16 * 256 + 0);
    TopOfSecond(x, 0);
    TopOfThird(x, 0);
  }

  /** Symbols of `val` from bit `valb` downwards, six at a time. */
  function Drain(val: int, valb: int): string
    decreases valb + 6
  {
    if valb < 0 then "" else [Symbol(SixBits(val, valb))] + Drain(val, valb - 6)
  }

  /** Symbols emitted while taking in the bytes from `i` on, with `bits + 6` bits of `val` not yet emitted. */
  function Emitted(s: string, i: nat, val: int, bits: int): string
    requires IsBytes(s) && i <= |s| && (bits == -6 || bits == -4 || bits == -2)
    decreases |s| - i
  {
    if i == |s| then
      if bits > -6 then [Symbol(SixBits(Wrap32(val * 256), (bits + 8) as nat))] else ""
    else
      var v := Push(val, s[i] as int);
      Drain(v, bits + 8) + Emitted(s, i + 1, v, if bits == -2 then -6 else bits + 2)
  }

  lemma DrainShort(val: int)
    ensures Drain(val, 2) == [Symbol(SixBits(val, 2))]
    ensures Drain(val, 4) == [Symbol(SixBits(val, 4))]
    ensures Drain(val, 6) == [Symbol(SixBits(val, 6)), Symbol(SixBits(val, 0))]
  {
    assert Drain(val, 0) == [Symbol(SixBits(val, 0))];
  }

  /** The trailing `=` that round the length up to a multiple of four. */
  function Padding(n: nat): string {
    if n % 4 == 0 then "" else if n % 4 == 1 then "===" else if n % 4 == 2 then "==" else "="
  }

  lemma EmittedOne(s: string, i: nat, val: int)
    requires IsBytes(s) && i + 1 == |s|
    ensures var a := s[i] as int; Emitted(s, i, val, -6) == [Symbol(a / 4), Symbol(a % 4 * 16)]
  {
    var a := s[i] as int;
    var v := Push(val, a);
    FirstSymbol(val, a);
    LowFour(val, a);
    LastSymbol(v, a);
    DrainShort(v);
    assert Emitted(s, i + 1, v, -4) == [Symbol(SixBits(Wrap32(v * 256), 4))];
  }

  lemma EmittedTwo(s: string, i: nat, val: int)
    requires IsBytes(s) && i + 2 == |s|
    ensures var a, b := s[i] as int, s[i + 1] as int;
            Emitted(s, i, val, -6) == [Symbol(a / 4), Symbol(a % 4 * 16 + b / 16), Symbol(b % 16 * 4)]
  {
    var a, b := s[i] as int, s[i + 1] as int;
    var v1 := Push(val, a);
    var v2 := Push(v1, b);
    FirstSymbol(val, a);
    LowFour(val, a);
    SecondSymbol(v1, a, b);
    LowFour(v1, b);
    LastSymbol(v2, b);
    DrainShort(v1);
    DrainShort(v2);
    assert Emitted(s, i + 2, v2, -2) == [Symbol(SixBits(Wrap32(v2 * 256), 6))];
    assert Emitted(s, i + 1, v1, -4) == [Symbol(SixBits(v2, 4))] + Emitted(s, i + 2, v2, -2);
  }

  /** One round of three bytes through the accumulator emits the group of the definition. */
  lemma EmittedThree(s: string, i: nat, val: int) returns (v3: int)
    requires IsBytes(s) && i + 3 <= |s|
    ensures Emitted(s, i, val, -6) == Group(s[i] as int, s[i + 1] as int, s[i + 2] as int) + Emitted(s, i + 3, v3, -6)
  {
    var a, b, c := s[i] as int, s[i + 1] as int, s[i + 2] as int;
    var v1 := Push(val, a);
    var v2 := Push(v1, b);
    v3 := Push(v2, c);
    FirstSymbol(val, a);
    LowFour(val, a);
    SecondSymbol(v1, a, b);
    LowFour(v1, b);
    ThirdAndFourth(v2, b, c);
    DrainShort(v1);
    DrainShort(v2);
    DrainShort(v3);
    var e := Emitted(s, i + 3, v3, -6);
    assert Emitted(s, i + 2, v2, -2) == [Symbol(SixBits(v3, 6)), Symbol(SixBits(v3, 0))] + e;
    assert Emitted(s, i + 1, v1, -4) == [Symbol(SixBits(v2, 4))] + Emitted(s, i + 2, v2, -2);
    assert Emitted(s, i, val, -6) == [Symbol(SixBits(v1, 2))] + Emitted(s, i + 1, v1, -4);
  }

  lemma PaddedGroup(g: string, e: string)
    requires |g| == 4
    ensures g + e + Padding(|g + e|) == g + (e + Padding(|e|))
  {
    assert |g + e| % 4 == |e| % 4;
  }

  /** The symbols of the bytes from `i` on, padded. */
  function Padded(s: string, i: nat, val: int): string
    requires IsBytes(s) && i <= |s|
  {
    var e := Emitted(s, i, val, -6);
    e + Padding(|e|)
  }

  lemma PaddedShort(s: string, i: nat, val: int)
    requires IsBytes(s) && |s| - 2 <= i <= |s|
    ensures Padded(s, i, val) == Reference(s, i)
  {
    if i + 1 == |s| {
      EmittedOne(s, i, val);
    } else if i + 2 == |s| {
      EmittedTwo(s, i, val);
    }
  }

  /** The wrapping accumulator computes the definition, for inputs of any length. */
  lemma {:induction false} EmittedIsReference(s: string, i: nat, val: int)
    requires IsBytes(s) && i <= |s|
    ensures Padded(s, i, val) == Reference(s, i)
    decreases |s| - i
  {
    if i + 2 >= |s| {
      PaddedShort(s, i, val);
    } else {
      var v := EmittedThree(s, i, val);
      PaddedGroup(Group(s[i] as int, s[i + 1] as int, s[i + 2] as int), Emitted(s, i + 3, v, -6));
      EmittedIsReference(s, i + 3, v);
    }
  }

  lemma UpperIs(v: nat)
    requires v < 26
    ensures UPPER[v] as int == 'A' as int + v
  {
  }

  lemma LowerIs(v: nat)
    requires v < 26
    ensures LOWER[v] as int == 'a' as int + v
  {
  }

  lemma RestIs(v: nat)
    requires v < 12
    ensures REST[v] == Symbol(v + 52)
  {
  }

  /** The lookup string holds the alphabet in order. */
  lemma AlphabetIs(v: nat)
    requires v < 64
    ensures ALPHABET[v] == Symbol(v)
  {
    if v < 26 {
      UpperIs(v);
    } else if v < 52 {
      LowerIs(v - 26);
    } else {
      RestIs(v - 52);
    }
  }

  /** The inner loop: everything but the last `valb + 6` bits is emitted. */
  method EmitSymbols(before: string, val: int, valb0: int) returns (out: string, valb: int)
    requires valb0 == 2 || valb0 == 4 || valb0 == 6
    ensures out == before + Drain(val, valb0)
    ensures valb == if valb0 == 6 then -6 else valb0 - 6
  {
    out, valb := before, valb0;
    while valb >= 0
      invariant out + Drain(val, valb) == before + Drain(val, valb0)
      invariant valb == valb0 || valb == valb0 - 6 || (valb0 == 6 && valb == -6)
      decreases valb + 6
    {
      AlphabetIs(SixBits(val, valb));
      Associative(out, [Symbol(SixBits(val, valb))], Drain(val, valb - 6));
      out := out + [ALPHABET[SixBits(val, valb)]];
      valb := valb - 6;
    }
  }

  method Pad(e: string) returns (out: string)
    ensures out == e + Padding(|e|)
  {
    out := e;
    while |out| % 4 != 0
      invariant out + Padding(|out|) == e + Padding(|e|)
      decreases |Padding(|out|)|
    {
      out := out + "=";
    }
  }

  method Encode(input: string) returns (out: string)
    requires IsBytes(input)
    ensures out == Reference(input, 0)
  {
    out := "";
    var val, valb := 0, -6;
    for i := 0 to |input|
      invariant valb == -6 || valb == -4 || valb == -2
      invariant out + Emitted(input, i, val, valb) == Emitted(input, 0, 0, -6)
    {
      val := Wrap32(Wrap32(val * 256) + input[i] as int);
      Associative(out, Drain(val, valb + 8), Emitted(input, i + 1, val, if valb == -2 then -6 else valb + 2));
      out, valb := EmitSymbols(out, val, valb + 8);
    }
    if valb > -6 {
      AlphabetIs(SixBits(Wrap32(val * 256), valb + 8));
      out := out + [ALPHABET[SixBits(Wrap32(val * 256), valb + 8)]];
    }
    out := Pad(out);
    EmittedIsReference(input, 0, 0);
  }

  // ---------- shape and inverse ----------

  /** Position of a symbol in the alphabet, computed from the symbol alone. */
  function SymbolValue(c: char): (v: nat)
    ensures v <= 64
  {
    if 'A' <= c <= 'Z' then c as int - 'A' as int
    else if 'a' <= c <= 'z' then c as int - 'a' as int + 26
    else if '0' <= c <= '9' then c as int - '0' as int + 52
    else if c == '+' then 62
    else if c == '/' then 63
    else 64
  }

  lemma SymbolValueOf(v: nat)
    requires v < 64
    ensures SymbolValue(Symbol(v)) == v && Symbol(v) != '='
  {
  }

  lemma QuadPadding(s: string, i: nat, k: nat)
    requires IsBytes(s) && i < |s| && k < 4
    ensures Quad(s, i)[k] == '=' <==> k > |s| - i
  {
    forall v | 0 <= v < 64 ensures Symbol(v) != '=' {
      SymbolValueOf(v);
    }
  }

  function GroupsFor(n: nat): nat { (n + 2) / 3 }

  lemma GroupsStep(s: string, i: nat)
    requires i < |s|
    ensures GroupsFor(|s| - i) == 1 + GroupsFor(|s| - Next(s, i))
  {
  }

  /** Four symbols for every three bytes begun. */
  lemma {:induction false} ReferenceLength(s: string, i: nat)
    requires IsBytes(s) && i <= |s|
    ensures |Reference(s, i)| == 4 * GroupsFor(|s| - i)
    decreases |s| - i
  {
    if i < |s| {
      GroupsStep(s, i);
      ReferenceLength(s, Next(s, i));
    }
  }

  /** How many bytes the last group lacks. */
  function Missing(n: nat): nat { (3 - n % 3) % 3 }

  lemma MissingLast(n: nat, k: nat)
    requires 0 < n && k < 4
    ensures n > 3 ==> Missing(n) == Missing(n - 3) && 4 * GroupsFor(n) - k > 2
    ensures n <= 3 ==> (k > n <==> 4 - k <= Missing(n))
  {
  }

  lemma HeadPadding(s: string, i: nat, k: nat)
    requires IsBytes(s) && i < |s| && k < 4
    ensures Quad(s, i)[k] == '=' <==> 4 * GroupsFor(|s| - i) - k <= Missing(|s| - i)
  {
    QuadPadding(s, i, k);
    MissingLast(|s| - i, k);
  }

  /** Padding stands only at the very end: one symbol for each byte the last group lacks. */
  lemma {:induction false} ReferencePadding(s: string, i: nat, k: nat)
    requires IsBytes(s) && i <= |s| && k < 4 * GroupsFor(|s| - i) == |Reference(s, i)|
    ensures Reference(s, i)[k] == '=' <==> 4 * GroupsFor(|s| - i) - k <= Missing(|s| - i)
    decreases |s| - i
  {
    var n := Next(s, i);
    if k < 4 {
      HeadPadding(s, i, k);
      assert Reference(s, i)[k] == Quad(s, i)[k];
    } else {
      MissingLast(|s| - i, 0);
      GroupsStep(s, i);
      ReferenceLength(s, n);
      ReferencePadding(s, n, k - 4);
      assert Reference(s, i)[k] == Reference(s, n)[k - 4];
    }
  }

  function ByteOf(v: nat): char
    requires v < 0xD800
  {
    v as char
  }

  /** The bytes of one group of four symbols, `=` standing for a missing one. */
  function DecodeQuad(q: string): string
    requires |q| == 4
  {
    var a, b, c, d := SymbolValue(q[0]), SymbolValue(q[1]), SymbolValue(q[2]), SymbolValue(q[3]);
    if q[2] == '=' then [ByteOf(a * 4 + b / 16)]
    else if q[3] == '=' then [ByteOf(a * 4 + b / 16), ByteOf(b % 16 * 16 + c / 4)]
    else [ByteOf(a * 4 + b / 16), ByteOf(b % 16 * 16 + c / 4), ByteOf(c % 4 * 64 + d)]
  }

  /** A decoder after section 4 of RFC 4648. */
  function Decode(t: string): string
    decreases |t|
  {
    if |t| < 4 then "" else DecodeQuad(t[..4]) + Decode(t[4..])
  }

  lemma SplitFirst(a: nat, b: nat)
    requires a < 256 && b < 256
    ensures a / 4 * 4 + (a % 4 * 16 + b / 16) / 16 == a
  {
    assert (a % 4 * 16 + b / 16) / 16 == a % 4;
  }

  lemma SplitSecond(x: nat, b: nat, c: nat)
    requires x < 256 && b < 256 && c < 256
    ensures (x % 4 * 16 + b / 16) % 16 * 16 + (b % 16 * 4 + c / 64) / 4 == b
  {
    assert (x % 4 * 16 + b / 16) % 16 == b / 16;
    assert (b % 16 * 4 + c / 64) / 4 == b % 16;
  }

  lemma SplitThird(b: nat, c: nat)
    requires b < 256 && c < 256
    ensures (b % 16 * 4 + c / 64) % 4 * 64 + c % 64 == c
  {
    assert (b % 16 * 4 + c / 64) % 4 == c / 64;
  }

  lemma DecodeOne(a: nat)
    requires a < 256
    ensures DecodeQuad([Symbol(a / 4), Symbol(a % 4 * 16), '=', '=']) == [ByteOf(a)]
  {
    SplitFirst(a, 0);
    SymbolValueOf(a / 4);
    SymbolValueOf(a % 4 * 16);
  }

  lemma DecodeTwo(a: nat, b: nat)
    requires a < 256 && b < 256
    ensures DecodeQuad([Symbol(a / 4), Symbol(a % 4 * 16 + b / 16), Symbol(b % 16 * 4), '=']) == [ByteOf(a), ByteOf(b)]
  {
    SplitFirst(a, b);
    SplitSecond(a, b, 0);
    SymbolValueOf(a / 4);
    SymbolValueOf(a % 4 * 16 + b / 16);
    SymbolValueOf(b % 16 * 4);
  }

  lemma DecodeGroup(a: nat, b: nat, c: nat)
    requires a < 256 && b < 256 && c < 256
    ensures DecodeQuad(Group(a, b, c)) == [ByteOf(a), ByteOf(b), ByteOf(c)]
  {
    SplitFirst(a, b);
    SplitSecond(a, b, c);
    SplitThird(b, c);
    SymbolValueOf(a / 4);
    SymbolValueOf(a % 4 * 16 + b / 16);
    SymbolValueOf(b % 16 * 4 + c / 64);
    SymbolValueOf(c % 64);
  }

  lemma QuadDecodes(s: string, i: nat)
    requires IsBytes(s) && i < |s|
    ensures DecodeQuad(Quad(s, i)) == s[i..Next(s, i)]
  {
    hide DecodeQuad, Symbol;
    if i + 1 == |s| {
      DecodeOne(s[i] as int);
    } else if i + 2 == |s| {
      DecodeTwo(s[i] as int, s[i + 1] as int);
    } else {
      DecodeGroup(s[i] as int, s[i + 1] as int, s[i + 2] as int);
    }
  }

  /** Decoding recovers the input. */
  lemma {:induction false} DecodeReference(s: string, i: nat)
    requires IsBytes(s) && i <= |s|
    ensures Decode(Reference(s, i)) == s[i..]
    decreases |s| - i
  {
    if i < |s| {
      var n := Next(s, i);
      var r := Reference(s, i);
      assert r[..4] == Quad(s, i) && r[4..] == Reference(s, n);
      QuadDecodes(s, i);
      DecodeReference(s, n);
      assert s[i..n] + s[n..] == s[i..];
    }
  }

  /** What the encoder's output is good for: its length, where it is padded, and that it can be decoded. */
  lemma EncodingExact(s: string)
    requires IsBytes(s)
    ensures |Reference(s, 0)| == 4 * GroupsFor(|s|)
    ensures forall k :: 0 <= k < |Reference(s, 0)| ==>
              (Reference(s, 0)[k] == '=' <==> |Reference(s, 0)| - k <= Missing(|s|))
    ensures Decode(Reference(s, 0)) == s
  {
    ReferenceLength(s, 0);
    forall k | 0 <= k < |Reference(s, 0)|
      ensures Reference(s, 0)[k] == '=' <==> |Reference(s, 0)| - k <= Missing(|s|)
    {
      ReferencePadding(s, 0, k);
    }
    DecodeReference(s, 0);
    assert s[0..] == s;
  }
}
