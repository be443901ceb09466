/** A socket, the read-ahead buffer in front of it, and the line reader on top. */
module SocketStream {
  import opened Text

  const READ_BUFF_SIZE: nat := 4096

  /** The receiving side of a connection: `sent` is everything the peer sends before it closes. */
  class Socket {
    ghost const sent: string
    /** Whether reads are free of errors; short reads are always possible. */
    const reliable: bool
    ghost var taken: nat
    /** What has not been received yet. */
    var incoming: string

    ghost predicate Valid()
      reads this
    {
      taken <= |sent| && incoming == sent[taken..]
    }

    constructor (sent: string, reliable: bool)
      ensures Valid() && this.sent == sent && this.reliable == reliable && taken == 0 && incoming == sent
    {
      this.sent, this.reliable, taken, incoming := sent, reliable, 0, sent;
    }

    method IsReadable() returns (r: bool)
      ensures reliable ==> r
    {
      r := *;
      if reliable {
        r := true;
      }
    }

    /** `recv`: an error, or some of the incoming bytes, none only at the end. */
    method Recv(max: nat) returns (n: int, data: string)
      requires Valid() && max > 0
      modifies this
      ensures Valid() && n <= max && (reliable ==> n >= 0)
      ensures n < 0 ==> data == "" && taken == old(taken)
      ensures n >= 0 ==> n == |data| && taken == old(taken) + n && data == old(incoming)[..n] &&
                         (n == 0 <==> old(incoming) == "")
      ensures old(incoming) == data + incoming
    {
      data := "";
      var failed: bool := *;
      if failed && !reliable {
        return -1, "";
      }
      if incoming == "" {
        return 0, "";
      }
      var most := if max < |incoming| then max else |incoming|;
      var k: nat :| 1 <= k <= most;
      n := k;
      data := incoming[..k];
      incoming := incoming[k..];
      taken := taken + k;
    }
  }

  class Stream {
    const sock: Socket
    const buff: array<char>
    var off: nat
    var size: nat
    /** Everything read from this stream so far. */
    ghost var handed: string

    ghost predicate Valid()
      reads this, sock, buff
    {
      && sock.Valid() && buff.Length == READ_BUFF_SIZE && size <= buff.Length
      && handed + Buffered() == sock.sent[..sock.taken]
    }

    /** Bytes received from the socket but not handed out. */
    ghost function Buffered(): string
      requires size <= buff.Length
      reads this, buff
    {
      if off < size then buff[off..size] else ""
    }

    /** What future reads will return. */
    ghost function Pending(): string
      requires Valid()
      reads this, sock, buff
    {
      Buffered() + sock.incoming
    }

    constructor (sock: Socket)
      requires sock.Valid() && sock.taken == 0
      ensures Valid() && this.sock == sock && fresh(buff) && handed == "" && Pending() == sock.sent
    {
      this.sock := sock;
      buff := new char[READ_BUFF_SIZE](_ => 0 as char);
      off, size, handed := 0, 0, "";
    }

    method Read(want: nat) returns (n: int, data: string)
      requires Valid() && want > 0
      modifies this, sock, buff
      ensures Valid() && n <= want && (sock.reliable ==> n >= 0)
      ensures handed == old(handed) + data
      ensures n < 0 ==> data == ""
      ensures n >= 0 ==> n == |data| && (n == 0 <==> old(Pending()) == "")
      ensures old(Pending()) == data + Pending()
    {
      if off < size {
        n, data := TakeBuffered(want);
        return;
      }
      assert Buffered() == "";
      var readable := sock.IsReadable();
      if !readable {
        return -1, "";
      }
      off, size := 0, 0;
      if want < READ_BUFF_SIZE {
        n, data := ReadAhead(want);
      } else {
        label before:
        n, data := sock.Recv(want);
        Appended(sock.sent, old@before(sock.taken), data);
        handed := handed + data;
      }
    }

    /** Serves a read from the buffer alone. */
    method TakeBuffered(want: nat) returns (n: int, data: string)
      requires Valid() && off < size && want > 0
      modifies this
      ensures Valid() && 0 < n <= want && n == |data|
      ensures handed == old(handed) + data && old(Pending()) == data + Pending()
    {
      var remaining := size - off;
      var k := if want <= remaining then want else remaining;
      data := buff[off..off + k];
      ghost var rest := buff[off + k..size];
      assert buff[off..size] == data + rest;
      Associative(handed, data, rest);
      Associative(data, rest, sock.incoming);
      assert k == remaining ==> rest == "";
      handed := handed + data;
      off := off + k;
      n := k;
    }

    /** Receives up to a buffer full and hands out only what was asked for. */
    method ReadAhead(want: nat) returns (n: int, data: string)
      requires Valid() && off == size == 0 && 0 < want < READ_BUFF_SIZE
      modifies this, sock, buff
      ensures Valid() && n <= want && (sock.reliable ==> n >= 0)
      ensures handed == old(handed) + data
      ensures n < 0 ==> data == ""
      ensures n >= 0 ==> n == |data| && (n == 0 <==> old(Pending()) == "")
      ensures old(Pending()) == data + Pending()
    {
      var m, got := sock.Recv(READ_BUFF_SIZE);
      Appended(sock.sent, old(sock.taken), got);
      if m <= 0 {
        return m, "";
      }
      forall i | 0 <= i < m {
        buff[i] := got[i];
      }
      assert buff[..m] == got;
      if m <= want {
        handed := handed + got;
        return m, got;
      }
      data := got[..want];
      assert data + buff[want..m] == got;
      assert handed + got == handed + data + buff[want..m];
      handed := handed + data;
      off, size := want, m;
      n := want;
    }
  }

  lemma Appended(sent: string, taken: nat, data: string)
    requires taken + |data| <= |sent| && sent[taken..taken + |data|] == data
    ensures sent[..taken + |data|] == sent[..taken] + data
  {
  }
}
