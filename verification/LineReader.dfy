/** The line reader, whose fixed buffer spills into a growing one. */
module LineReader {
  import opened Text
  import opened SocketStream

  /** The bytes up to and including the first line feed, or all of them. */
  function FirstLine(s: string): (line: string)
    ensures |line| <= |s| && line == s[..|line|]
    ensures s != "" ==> line != ""
  {
    var k := IndexOf(s, '\n');
    if k < |s| then s[..k + 1] else s
  }

  function AfterLine(s: string): string { s[|FirstLine(s)|..] }

  /** What a C string function sees of a buffer: the bytes in front of the first NUL. */
  function CString(s: string): string { s[..IndexOf(s, 0 as char)] }

  class Reader {
    const strm: Stream
    const fixedBuffer: array<char>
    var used: nat
    var glowable: string

    ghost predicate Valid()
      reads this, fixedBuffer, strm, strm.sock, strm.buff
    {
      && strm.Valid() && fixedBuffer != strm.buff && fixedBuffer.Length >= 2
      && used < fixedBuffer.Length
      && (used > 0 ==> fixedBuffer[used] == 0 as char)
      && (glowable != "" ==> used == fixedBuffer.Length - 1)
    }

    /** `ptr()` and `size()`: the line read last. */
    function Line(): string
      requires used < fixedBuffer.Length
      reads this, fixedBuffer
    {
      if glowable == "" then fixedBuffer[..used] else glowable
    }

    constructor (strm: Stream, fixedBuffer: array<char>)
      requires strm.Valid() && fixedBuffer.Length >= 2 && fixedBuffer != strm.buff
      ensures Valid() && this.strm == strm && this.fixedBuffer == fixedBuffer && Line() == ""
    {
      this.strm, this.fixedBuffer := strm, fixedBuffer;
      used, glowable := 0, "";
    }

    method Append(c: char)
      requires Valid()
      modifies this, fixedBuffer
      ensures Valid() && Line() == old(Line()) + [c]
    {
      if used < fixedBuffer.Length - 1 {
        fixedBuffer[used] := c;
        used := used + 1;
        fixedBuffer[used] := 0 as char;
      } else {
        if glowable == "" {
          assert fixedBuffer[used] == 0 as char;
          glowable := fixedBuffer[..used];
        }
        glowable := glowable + [c];
      }
    }

    /** One turn of the loop: reads a byte and appends it. */
    method ReadByte() returns (n: int, c: char)
      requires Valid()
      modifies this, fixedBuffer, strm, strm.sock, strm.buff
      ensures Valid() && n <= 1 && (strm.sock.reliable ==> n >= 0)
      ensures n <= 0 ==> Line() == old(Line()) && strm.Pending() == old(strm.Pending())
      ensures n == 0 ==> strm.Pending() == ""
      ensures n == 1 ==> Line() == old(Line()) + [c] && old(strm.Pending()) == [c] + strm.Pending()
    {
      c := 0 as char;
      var data;
      n, data := strm.Read(1);
      if n > 0 {
        c := data[0];
        assert data == [c];
        Append(c);
      }
    }

    /** Reads one line, byte by byte. Whatever the cut between fixed and growing buffer, the line is the
        first line of what the stream still holds, and exactly that is consumed. */
    method GetLine() returns (ok: bool)
      requires Valid()
      modifies this, fixedBuffer, strm, strm.sock, strm.buff
      ensures Valid()
      ensures old(strm.Pending()) == Line() + strm.Pending()
      ensures |strm.Pending()| <= |old(strm.Pending())| - if ok then 1 else 0
      ensures strm.sock.reliable ==> TookLine(old(strm.Pending()), ok, Line(), strm.Pending())
    {
      used := 0;
      glowable := "";
      ghost var all, line, pend := strm.Pending(), "", strm.Pending();
      var i, n, c := 0, 1, 0 as char;
      while n == 1 && c != '\n'
        invariant Valid() && line == Line() && pend == strm.Pending()
        invariant n <= 1 && (strm.sock.reliable ==> n >= 0) && (n == 0 ==> pend == "")
        invariant i == |line| && all == line + pend && (n == 1 && c == '\n' ==> i > 0)
        invariant FirstLine(all) == if n == 1 && c == '\n' then line else line + FirstLine(pend)
        decreases |pend|, n
      {
        n, c := ReadByte();
        if n == 1 {
          FirstLineCons(line, c, strm.Pending());
          line := line + [c];
          pend := strm.Pending();
          i := i + 1;
        }
      }
      ok := n == 1 || (n == 0 && i != 0);
      assert n >= 0 ==> FirstLine(all) == line;
    }
  }

  /** `line` is the first line of `all`, `rest` what follows it, and there was one unless `all` is empty. */
  predicate TookLine(all: string, ok: bool, line: string, rest: string) {
    ok == (all != "") && line == FirstLine(all) && all == line + rest
  }

  lemma FirstLineCons(line: string, c: char, rest: string)
    ensures line + ([c] + rest) == line + [c] + rest
    ensures line + FirstLine([c] + rest) == line + [c] + if c == '\n' then "" else FirstLine(rest)
  {
    var s := [c] + rest;
    assert s[1..] == rest;
    var k := IndexOf(rest, '\n');
    assert IndexOf(s, '\n') == if c == '\n' then 0 else k + 1;
    FirstOf(c, rest, k);
    Associative(line, [c], if c == '\n' then "" else FirstLine(rest));
    Associative(line, [c], rest);
  }

  lemma FirstOf(c: char, rest: string, k: nat)
    requires k <= |rest|
    ensures ([c] + rest)[..1] == [c] + "" && (k < |rest| ==> ([c] + rest)[..k + 2] == [c] + rest[..k + 1])
  {
  }
}
