/**
 * A network connection's reading side and the bufio.Reader in front of it. The logical stream is
 * what the reader has buffered followed by what the connection has not delivered yet.
 */
module Bufio {
  import opened Words

  /** `Broken` stands for every connection error other than io.EOF. */
  datatype Error = NoError | Eof | Broken

  const LF: byte := 10
  const CR: byte := 13

  /** net.Conn: delivers its bytes in pieces of any size, then fails with `end` for ever. */
  class Transport {
    var unread: seq<byte>
    const end: Error

    constructor (bytes: seq<byte>, end: Error)
      requires end != NoError
      ensures unread == bytes && this.end == end
    {
      unread, this.end := bytes, end;
    }

    /** A read with room makes progress or fails; the failure may come along with the last bytes. */
    method Read(room: nat) returns (data: seq<byte>, err: Error)
      requires end != NoError
      modifies this
      ensures old(unread) == data + unread && |data| <= room
      ensures err != NoError ==> err == end && unread == []
      ensures room > 0 && data == [] ==> err != NoError
    {
      var n: nat :| n <= room && n <= |unread| && (room > 0 && unread != [] ==> n > 0);
      data, unread := unread[..n], unread[n..];
      var failing: bool := *;
      err := if unread == [] && (failing || (room > 0 && n == 0)) then end else NoError;
    }
  }

  const SIZE := 4096  // bufio's default buffer size

  class Reader {
    const conn: Transport
    var buffered: seq<byte>
    var pending: Error      // an error the connection reported while filling the buffer

    ghost predicate Valid()
      reads this, conn
    {
      conn.end != NoError && |buffered| <= SIZE && (pending != NoError ==> pending == conn.end && conn.unread == [])
    }

    ghost function Rest(): seq<byte>
      reads this, conn
    {
      buffered + conn.unread
    }

    constructor (conn: Transport)
      requires conn.end != NoError
      ensures Valid() && this.conn == conn && Rest() == conn.unread
    {
      this.conn, buffered, pending := conn, [], NoError;
    }

    method TakePending() returns (err: Error)
      requires Valid()
      modifies this`pending
      ensures Valid() && err == old(pending)
    {
      err, pending := pending, NoError;
    }

    /** One read from the connection into the free part of the buffer. */
    method Fill()
      requires Valid() && |buffered| < SIZE
      modifies this, conn
      ensures Valid() && Rest() == old(Rest()) && old(buffered) <= buffered
      ensures |buffered| > |old(buffered)| || pending != NoError
      ensures |conn.unread| <= |old(conn.unread)|
    {
      var data, err := conn.Read(SIZE - |buffered|);
      buffered, pending := buffered + data, err;
      assert buffered + conn.unread == old(buffered) + (data + conn.unread);
    }

    /** Whatever is buffered, at most `room` bytes; else one read from the connection. */
    method Read(room: nat) returns (data: seq<byte>, err: Error)
      requires Valid()
      modifies this, conn
      ensures Valid() && old(Rest()) == data + Rest() && |data| <= room
      ensures err != NoError ==> err == conn.end && Rest() == []
      ensures room > 0 && data == [] ==> err != NoError
      ensures old(buffered) != [] ==>
                err == NoError && data + buffered == old(buffered) && |data| == Min(room, |old(buffered)|)
    {
      data, err := [], NoError;
      if room == 0 {
        if buffered == [] {
          err := TakePending();
        }
        return;
      }
      if buffered == [] {
        if pending != NoError {
          err := TakePending();
          return;
        }
        if room >= SIZE {
          data, err := conn.Read(room);
          return;
        }
        Fill();
        if buffered == [] {
          err := TakePending();
          return;
        }
      }
      var n := Min(room, |buffered|);
      data, buffered := buffered[..n], buffered[n..];
      assert data + (buffered + conn.unread) == old(Rest());
    }

    /** The next byte, or 0 and the error. */
    method ReadByte() returns (b: byte, err: Error)
      requires Valid()
      modifies this, conn
      ensures Valid()
      ensures err == NoError <==> old(Rest()) != []
      ensures err == NoError ==> b == old(Rest())[0] && Rest() == old(Rest())[1..]
      ensures err != NoError ==> b == 0 && err == conn.end && Rest() == []
    {
      if buffered == [] && pending == NoError {
        Fill();
      }
      if buffered == [] {
        err := TakePending();
        return 0, err;
      }
      b, buffered := buffered[0], buffered[1..];
      return b, NoError;
    }

    /**
     * The bytes up to the next line feed, without it and a carriage return before it. A line that
     * does not fit the buffer comes in pieces, `prefix` on all but the last; a line cut off by the
     * end of the stream comes as it is, and the error is held back.
     */
    method ReadLine() returns (line: seq<byte>, prefix: bool, err: Error)
      requires Valid()
      modifies this, conn
      ensures Valid()
      ensures err != NoError <==> old(Rest()) == []
      ensures err != NoError ==> err == conn.end && line == [] && !prefix && Rest() == []
      ensures err == NoError && !prefix ==>
                (LF in old(Rest()) && (line, Rest()) == FirstLine(old(Rest()))) ||
                (LF !in old(Rest()) && line == old(Rest()) && Rest() == [])
      ensures err == NoError && prefix ==>
                && old(Rest()) == line + Rest() && LF !in line
                && |old(Rest())| >= SIZE && |line| == (if old(Rest())[SIZE - 1] == CR then SIZE - 1 else SIZE)
                && (LF in old(Rest()) ==> IndexOf(old(Rest()), LF) >= SIZE)
    {
      ghost var all := Rest();
      FillLine();
      assert all == buffered + conn.unread;
      if LF in buffered {
        IndexInPrefix(buffered, conn.unread, LF);
        var i := IndexOf(buffered, LF);
        assert buffered[..i] == all[..i] && buffered[i + 1..] + conn.unread == all[i + 1..];
        line, buffered := TrimCR(buffered[..i]), buffered[i + 1..];
        return line, false, NoError;
      } else if pending != NoError {
        assert all == buffered;
        line, buffered := buffered, [];
        if line == [] {
          err := TakePending();
          return [], false, err;
        }
        pending := NoError;
        return line, false, NoError;
      } else {
        // the buffer is full; a carriage return at its end waits for the next call
        NotInPrefix(buffered, conn.unread, LF);
        var n := if buffered[SIZE - 1] == CR then SIZE - 1 else SIZE;
        line, buffered := buffered[..n], buffered[n..];
        return line, true, NoError;
      }
    }

    /** Reads until the buffer holds a line feed, an error came, or the buffer is full. */
    method FillLine()
      requires Valid()
      modifies this, conn
      ensures Valid() && Rest() == old(Rest())
      ensures LF in buffered || pending != NoError || |buffered| == SIZE
    {
      ghost var all := Rest();
      while LF !in buffered && pending == NoError && |buffered| < SIZE
        invariant Valid() && Rest() == all
        decreases SIZE - |buffered|, pending == NoError
      {
        Fill();
      }
    }
  }

  function IndexOf(s: seq<byte>, b: byte): (i: nat)
    requires b in s
    ensures i < |s| && s[i] == b && b !in s[..i]
  {
    if s[0] == b then 0 else 1 + IndexOf(s[1..], b)
  }

  function TrimCR(line: seq<byte>): seq<byte> {
    if line != [] && line[|line| - 1] == CR then line[..|line| - 1] else line
  }

  /** The first line of `s` without its terminator, and what follows it. */
  function FirstLine(s: seq<byte>): (seq<byte>, seq<byte>)
    requires LF in s
  {
    var i := IndexOf(s, LF);
    (TrimCR(s[..i]), s[i + 1..])
  }

  lemma {:induction false} IndexInPrefix(s: seq<byte>, t: seq<byte>, b: byte)
    requires b in s
    ensures b in s + t && IndexOf(s + t, b) == IndexOf(s, b)
  {
    if s[0] != b {
      assert (s + t)[1..] == s[1..] + t;
      IndexInPrefix(s[1..], t, b);
    }
  }

  lemma NotInPrefix(s: seq<byte>, t: seq<byte>, b: byte)
    requires b !in s
    ensures b in s + t ==> IndexOf(s + t, b) >= |s|
  {
    if b in s + t {
      var i := IndexOf(s + t, b);
      assert forall j :: 0 <= j < |s| ==> (s + t)[j] == s[j];
      assert (s + t)[i] == b;
    }
  }

  lemma {:induction false} IndexAfter(s: seq<byte>, t: seq<byte>, b: byte)
    requires b !in s && b in t
    ensures b in s + t && IndexOf(s + t, b) == |s| + IndexOf(t, b)
  {
    if s == [] {
      assert s + t == t;
    } else {
      assert (s + t)[1..] == s[1..] + t;
      IndexAfter(s[1..], t, b);
    }
  }
}
