/**
 * The chunked writer and reader as objects. The reader is proved against the one-shot decoder:
 * `Pending` is what is still to be delivered, and every Read moves its first bytes to the caller.
 */
module ChunkedIO {
  import opened Wrappers
  import opened Words
  import opened Bufio
  import opened ChunkedCoding

  // ----- writer

  /** An io.Writer: all of the data, or a part of it and an error. */
  class Sink {
    var written: seq<byte>

    constructor ()
      ensures written == []
    {
      written := [];
    }

    method Write(data: seq<byte>) returns (n: nat, ok: bool)
      modifies this
      ensures n <= |data| && (ok <==> n == |data|)
      ensures written == old(written) + data[..n]
    {
      n :| n <= |data|;
      ok := n == |data|;
      written := written + data[..n];
    }
  }

  class ChunkedWriter {
    const wire: Sink
    ghost var base: seq<byte>          // on the wire before the first write
    ghost var writes: seq<seq<byte>>   // the writes so far, while none has failed
    ghost var failed: bool

    ghost predicate Valid()
      reads this, wire
    {
      !failed ==> wire.written == base + Encode(writes)
    }

    constructor (wire: Sink)
      ensures Valid() && this.wire == wire && base == wire.written && writes == [] && !failed
    {
      this.wire := wire;
      base, writes, failed := wire.written, [], false;
    }

    /** One piece of a chunk after `out`; a failure leaves part of it. */
    method Put(piece: seq<byte>, ghost before: seq<byte>, ghost out: seq<byte>, ghost after: seq<byte>)
      returns (n: nat, ok: bool)
      requires wire.written == before + out
      modifies wire
      ensures n <= |piece| && |wire.written| == |before| + |out| + n && (ok <==> n == |piece|)
      ensures ok ==> wire.written == before + (out + piece)
      ensures before <= wire.written <= before + (out + piece + after)
    {
      n, ok := wire.Write(piece);
      assert piece[..n] + piece[n..] == piece;
      assert wire.written == before + (out + piece[..n]);
      assert before + (out + piece + after) == wire.written + (piece[n..] + after);
    }

    /** How many of the first `sent` bytes of a chunk are data. */
    static function DataAmong(data: seq<byte>, sent: int): nat {
      var size := |HexPrint(|data|)| + 2;
      if sent < size then 0 else if sent - size < |data| then sent - size else |data|
    }

    /** The three writes that make up a chunk, and how much of the data was written. */
    method PutChunk(data: seq<byte>) returns (n: nat, ok: bool)
      requires data != []
      modifies wire
      ensures ok ==> wire.written == old(wire.written) + EncodeChunk(data)
      ensures old(wire.written) <= wire.written <= old(wire.written) + EncodeChunk(data)
      ensures n == DataAmong(data, |wire.written| - |old(wire.written)|)
    {
      ghost var before := wire.written;
      var size := HexPrint(|data|) + CRLF;
      assert [] + size == size && before + [] == before;
      assert EncodeChunk(data) == size + (data + CRLF) == (size + data) + CRLF == (size + data) + CRLF + [];
      var k;
      k, ok := Put(size, before, [], data + CRLF);
      if !ok {
        return 0, false;
      }
      n, ok := Put(data, before, size, CRLF);
      if !ok {
        return;
      }
      k, ok := Put(CRLF, before, size + data, []);
    }

    /** One chunk per non-empty write; a failure leaves a prefix of the chunk on the wire. */
    method Write(data: seq<byte>) returns (n: nat, ok: bool)
      requires Valid() && !failed
      modifies this, wire
      ensures Valid() && base == old(base) && failed == !ok
      ensures ok ==> n == |data| && writes == old(writes) + [data]
      ensures n == DataAmong(data, |wire.written| - |old(wire.written)|)
      ensures ok ==> wire.written == old(wire.written) + EncodeChunk(data)
      ensures old(wire.written) <= wire.written <= old(wire.written) + EncodeChunk(data)
    {
      OneMoreWrite(base, writes, data);
      writes := writes + [data];
      if |data| == 0 {
        return 0, true;
      }
      n, ok := PutChunk(data);
      failed := !ok;
    }

    /** The terminating chunk; the wire then holds one complete coding of the writes. */
    method CloseWithTrailer() returns (ok: bool)
      requires Valid() && !failed
      modifies wire
      ensures ok ==> wire.written == base + Encode(writes) + LAST_CHUNK
    {
      var n;
      n, ok := wire.Write(LAST_CHUNK);
      assert ok ==> LAST_CHUNK[..n] == LAST_CHUNK;
    }
  }

  lemma OneMoreWrite(base: seq<byte>, writes: seq<seq<byte>>, data: seq<byte>)
    ensures base + Encode(writes + [data]) == (base + Encode(writes)) + EncodeChunk(data)
    ensures data == [] ==> base + Encode(writes + [data]) == base + Encode(writes)
  {
    EncodeAppend(writes, data);
    assert base + (Encode(writes) + EncodeChunk(data)) == (base + Encode(writes)) + EncodeChunk(data);
    assert data == [] ==> Encode(writes) + EncodeChunk(data) == Encode(writes);
  }

  // ----- reader

  datatype ReadResult = Fine | CleanEof | UnexpectedEof | InvalidByte | TooLarge | Malformed | ConnBroken

  /** io.EOF below is an unexpected end here; other errors pass. */
  function Converted(err: Error): ReadResult
    requires err != NoError
  {
    if err == Eof then UnexpectedEof else ConnBroken
  }

  /** `len <<= 4; len |= d` on a uint64: the top four bits fall out. */
  function ShiftIn(len: uint64, d: nat): uint64
    requires d < 16
  {
    (len % SIZE_LIMIT) * 16 + d
  }

  /** The digits of one piece of a size line, shifted into a uint64 as in the source. */
  method ParseDigits(line: seq<byte>) returns (len: uint64, cnt: nat, ok: bool)
    ensures ok <==> AllHex(line)
    ensures ok ==> cnt == |line| && (cnt <= MAX_DIGITS ==> len == HexValue(line))
  {
    len, cnt := 0, 0;
    while cnt < |line|
      invariant cnt <= |line| && AllHex(line[..cnt])
      invariant cnt <= MAX_DIGITS ==> len == HexValue(line[..cnt])
    {
      var b := line[cnt];
      if !IsHex(b) {
        return len, cnt, false;
      }
      if cnt < MAX_DIGITS {
        DigitsFit(line[..cnt]);
      }
      assert line[..cnt + 1][..cnt] == line[..cnt];
      len := ShiftIn(len, DigitValue(b));
      cnt := cnt + 1;
    }
    assert line[..cnt] == line;
    ok := true;
  }

  lemma DigitsFit(s: seq<byte>)
    requires AllHex(s) && |s| < MAX_DIGITS
    ensures HexValue(s) < SIZE_LIMIT
  {
    HexBound(s);
    PowMonotone(|s|, MAX_DIGITS);
    LimitIsPower();
  }

  class ChunkedReader {
    const br: Reader
    var currentCount: int
    var currentChunkSize: int

    ghost predicate Valid()
      reads this, br, br.conn
    {
      && br.Valid()
      && if currentChunkSize == -1 then currentCount == 0
         else 0 <= currentCount <= currentChunkSize && (currentCount == currentChunkSize ==> currentChunkSize == 0)
    }

    /** What is still to be delivered, how it ends, and what follows it. */
    ghost function Pending(): Decoded
      requires Valid()
      reads this, br, br.conn
    {
      if currentChunkSize == -1 then Decode(br.Rest())
      else InChunk(currentChunkSize - currentCount, currentChunkSize == 0, br.Rest())
    }

    constructor (br: Reader)
      requires br.Valid()
      ensures Valid() && this.br == br && Pending() == Decode(br.Rest())
    {
      this.br, currentCount, currentChunkSize := br, 0, -1;
    }

    method ReadChunkHeader() returns (len: uint64, err: ReadResult)
      requires br.Valid()
      modifies br, br.conn
      ensures br.Valid() && err != CleanEof
      ensures err == Fine <==> SizeLine(old(br.Rest())).Some?
      ensures err == Fine ==> SizeLine(old(br.Rest())) == Some((len as nat, br.Rest())) && len < SIZE_LIMIT
    {
      ghost var all := br.Rest();
      SizeIsSmall(all);
      len, err := 0, Fine;
      var isPref := true;
      while isPref
        invariant br.Valid() && err == Fine
        invariant if isPref then br.Rest() == all else SizeLine(all) == Some((len as nat, br.Rest()))
        decreases isPref
      {
        var line, e, cnt, ok;
        line, isPref, e := br.ReadLine();
        if e != NoError {
          return 0, Converted(e);
        }
        PieceOfLine(all, line, isPref, br.Rest());
        len, cnt, ok := ParseDigits(line);
        if !ok {
          return 0, InvalidByte;
        }
        if cnt >= 16 {
          return 0, TooLarge;
        }
      }
    }

    /** Moves the next bytes of the payload to the caller, or reports how the payload ended. */
    method Read(room: nat) returns (data: seq<byte>, err: ReadResult)
      requires Valid()
      modifies this, br, br.conn
      ensures |data| <= room && br.Valid()
      ensures err == Fine ==> Valid() && old(Pending()) == Prepend(data, Pending())
      ensures err != Fine ==> data == old(Pending()).payload && (err == CleanEof <==> old(Pending()).clean)
      ensures err == CleanEof ==> br.Rest() == old(Pending()).rest
      ensures err == Fine && room > 0 ==> data != []
    {
      if currentChunkSize == -1 {
        var l;
        l, err := ReadChunkHeader();
        if err != Fine {
          return [], err;
        }
        currentChunkSize := l;
      }
      data, err := ReadChunk(room);
    }

    /** The part of Read after the size line. */
    method ReadChunk(room: nat) returns (data: seq<byte>, err: ReadResult)
      requires br.Valid() && InsideChunk()
      modifies this, br, br.conn
      ensures |data| <= room && br.Valid()
      ensures var d := old(Left());
              && (err == Fine ==> Valid() && d == Prepend(data, Pending()))
              && (err != Fine ==> data == d.payload && (err == CleanEof <==> d.clean))
              && (err == CleanEof ==> br.Rest() == d.rest)
      ensures err == Fine && room > 0 ==> data != []
    {
      var e;
      data, e := TakeLeft(room);
      ghost var left := Left();
      err := AfterData(e);
      if err != Fine {
        PayloadEnds(data, left);
      }
    }

    /** How the call ends once it has its data. */
    method AfterData(e: Error) returns (err: ReadResult)
      requires br.Valid() && 0 <= currentCount <= currentChunkSize
      requires e != NoError ==> br.Rest() == [] && currentChunkSize != 0
      modifies this, br, br.conn
      ensures br.Valid()
      ensures err == Fine ==> Valid() && e == NoError && old(currentChunkSize) != 0 && old(Left()) == Pending()
      ensures err != Fine ==> old(Left()).payload == [] && (err == CleanEof <==> old(Left()).clean)
      ensures err == CleanEof ==> br.Rest() == old(Left()).rest
    {
      if e != NoError {
        NothingLeft(currentChunkSize - currentCount);
        return Converted(e);
      }
      err := Fine;
      if currentCount == currentChunkSize {
        err := CheckEnd();
      }
    }

    /** A chunk that is not read to its end, or the last one. */
    predicate InsideChunk()
      reads this
    {
      0 <= currentCount <= currentChunkSize && (currentCount == currentChunkSize ==> currentChunkSize == 0)
    }

    /** What is to come after the data taken from the current chunk so far. */
    ghost function Left(): Decoded
      requires 0 <= currentCount <= currentChunkSize
      reads this, br, br.conn
    {
      InChunk(currentChunkSize - currentCount, currentChunkSize == 0, br.Rest())
    }

    method TakeLeft(room: nat) returns (data: seq<byte>, e: Error)
      requires br.Valid() && InsideChunk()
      modifies this`currentCount, br, br.conn
      ensures br.Valid() && |data| <= room && currentCount == old(currentCount) + |data| <= currentChunkSize
      ensures old(Left()) == Prepend(data, Left())
      ensures e != NoError ==> br.Rest() == [] && currentChunkSize != 0
      ensures e == NoError && room > 0 && currentChunkSize != 0 ==> data != []
    {
      ghost var (n, last, ahead) := (currentChunkSize - currentCount, currentChunkSize == 0, br.Rest());
      data, e := TakeData(room);
      DataTaken(n, last, data, br.Rest(), ahead);
    }

    /** Data bytes of the chunk, at most to its end; none of the last chunk. */
    method TakeData(room: nat) returns (data: seq<byte>, e: Error)
      requires br.Valid() && InsideChunk()
      modifies this`currentCount, br, br.conn
      ensures br.Valid() && |data| <= room && currentCount == old(currentCount) + |data| <= currentChunkSize
      ensures old(br.Rest()) == data + br.Rest()
      ensures e != NoError ==> br.Rest() == [] && currentChunkSize != 0
      ensures e == NoError && room > 0 && currentChunkSize != 0 ==> data != []
    {
      if currentChunkSize == 0 {
        assert br.Rest() == [] + br.Rest();
        return [], NoError;
      }
      var left := currentChunkSize - currentCount;
      data, e := br.Read(if left < room then left else room);
      currentCount := currentCount + |data|;
    }

    /** The line end after a chunk; after the last chunk it is the end of the coding. */
    method CheckEnd() returns (err: ReadResult)
      requires br.Valid() && currentCount == currentChunkSize >= 0
      modifies this, br, br.conn
      ensures br.Valid()
      ensures var d := old(Left());
              && (err == Fine ==> Valid() && d == Pending())
              && (err != Fine ==> d.payload == [] && (err == CleanEof <==> d.clean))
              && (err == CleanEof ==> br.Rest() == d.rest)
      ensures old(currentChunkSize) == 0 ==> err != Fine
    {
      ghost var u := br.Rest();
      var dr, _ := br.ReadByte();
      var dn, e := br.ReadByte();
      if e != NoError {
        return Converted(e);
      }
      assert u[0] == dr && u[1] == dn && (EndsLine(u, 0) <==> dr == CR && dn == LF) && u[2..] == br.Rest();
      if dr != CR || dn != LF {
        return Malformed;
      }
      if currentChunkSize == 0 {
        return CleanEof;
      }
      PrependNothing(Decode(u[2..]));
      currentCount, currentChunkSize := 0, -1;
      return Fine;
    }
  }

  lemma DataTaken(left: nat, last: bool, data: seq<byte>, rest: seq<byte>, ahead: seq<byte>)
    requires |data| <= left && (last ==> left == 0) && ahead == data + rest
    ensures InChunk(left, last, ahead) == Prepend(data, InChunk(left - |data|, last, rest))
  {
    if last {
      assert data + rest == rest;
      PrependNothing(InChunk(0, true, rest));
    } else {
      InChunkAfter(left, data, rest);
    }
  }

  lemma NothingLeft(left: nat)
    ensures InChunk(left, false, []) == BAD
  {
    var t: seq<byte> := [];
    assert t[..0] == [];
  }

  /** If nothing more is to come, what was moved is the payload. */
  lemma PayloadEnds(data: seq<byte>, left: Decoded)
    requires left.payload == []
    ensures Prepend(data, left) == Decoded(data, left.clean, left.rest)
  {
    assert data + [] == data;
  }

  /** Taking data out of a chunk leaves the rest of the chunk. */
  lemma InChunkAfter(left: nat, data: seq<byte>, rest: seq<byte>)
    requires |data| <= left
    ensures InChunk(left, false, data + rest) == Prepend(data, InChunk(left - |data|, false, rest))
  {
    var m := left - |data|;
    DropData(data, rest, m);
    if |rest| >= m && EndsLine(rest, m) {
      PrependTwice(data, rest[..m], Decode(rest[m + 2..]));
    }
  }

  lemma DropData(data: seq<byte>, rest: seq<byte>, m: nat)
    ensures EndsLine(data + rest, |data| + m) <==> EndsLine(rest, m)
    ensures m <= |rest| ==> (data + rest)[..|data| + m] == data + rest[..m]
    ensures m + 2 <= |rest| ==> (data + rest)[|data| + m + 2..] == rest[m + 2..]
  {
  }

  lemma PieceOfLine(all: seq<byte>, line: seq<byte>, prefix: bool, rest: seq<byte>)
    requires all != []
    requires !prefix ==> (LF in all && (line, rest) == FirstLine(all)) || (LF !in all && line == all && rest == [])
    requires prefix ==> |line| >= SIZE - 1 && line <= all && (LF in all ==> IndexOf(all, LF) >= SIZE)
    ensures if prefix then SizeLine(all).None? && |line| > MAX_DIGITS else Line(all) == (line, rest)
  {
    if prefix {
      assert |Line(all).0| >= SIZE - 1;
    }
  }

  // ----- whole messages

  /**
   * Reads to the first error, with a buffer size chosen at will for every call, `idle` of which
   * may be empty. Whatever the sizes and however the connection cuts its pieces, the bytes
   * delivered and the way they end are those of the one-shot decoder.
   */
  method ReadToEnd(r: ChunkedReader, idle: nat) returns (payload: seq<byte>, err: ReadResult)
    requires r.Valid()
    modifies r, r.br, r.br.conn
    ensures err != Fine && payload == old(r.Pending()).payload
    ensures err == CleanEof <==> old(r.Pending()).clean
    ensures err == CleanEof ==> r.br.Rest() == old(r.Pending()).rest
  {
    payload, err := [], Fine;
    var spare := idle;
    ghost var whole, left := r.Pending(), r.Pending();
    assert whole == Prepend([], left);
    while err == Fine
      invariant err == Fine ==> r.Valid() && left == r.Pending() && whole == Prepend(payload, left)
      invariant err != Fine ==> payload == whole.payload && (err == CleanEof <==> whole.clean)
      invariant err == CleanEof ==> r.br.Rest() == whole.rest
      decreases err == Fine, |left.payload|, spare
    {
      var room: nat := *;
      if room == 0 && spare == 0 {
        room := 1;
      } else if room == 0 {
        spare := spare - 1;
      }
      var data;
      data, err := r.Read(room);
      if err == Fine {
        PrependTwice(payload, data, r.Pending());
        left := r.Pending();
      }
      payload := payload + data;
    }
  }

  lemma PrependTwice(a: seq<byte>, b: seq<byte>, d: Decoded)
    ensures Prepend(a, Prepend(b, d)) == Prepend(a + b, d)
  {
    assert a + (b + d.payload) == (a + b) + d.payload;
  }

  /** Any byte stream, well formed or not: what is delivered depends on the bytes alone. */
  method Receive(stream: seq<byte>, end: Error, idle: nat)
    returns (payload: seq<byte>, err: ReadResult, rest: seq<byte>)
    requires end != NoError
    ensures err != Fine && payload == Decode(stream).payload
    ensures err == CleanEof <==> Decode(stream).clean
    ensures err == CleanEof ==> rest == Decode(stream).rest
  {
    var conn := new Transport(stream, end);
    var br := new Reader(conn);
    var r := new ChunkedReader(br);
    payload, err := ReadToEnd(r, idle);
    rest := br.buffered + conn.unread;
  }

  /** What the writer printed comes back whole, ends in io.EOF, and leaves the next bytes for the next reader. */
  method Exchange(writes: seq<seq<byte>>, tail: seq<byte>, end: Error, idle: nat)
    returns (payload: seq<byte>, err: ReadResult, rest: seq<byte>)
    requires end != NoError && Printable(writes)
    ensures payload == Flatten(writes) && err == CleanEof && rest == tail
  {
    RoundTrip(writes, tail);
    payload, err, rest := Receive(Encode(writes) + LAST_CHUNK + tail, end, idle);
  }

  /** Cut anywhere, the same stream yields a prefix of the payload and an error that is not io.EOF. */
  method ReceiveTruncated(writes: seq<seq<byte>>, cut: nat, end: Error, idle: nat)
    returns (payload: seq<byte>, err: ReadResult)
    requires end != NoError && Printable(writes) && cut < |Encode(writes) + LAST_CHUNK|
    ensures payload <= Flatten(writes) && err != CleanEof && err != Fine
  {
    var whole := Encode(writes) + LAST_CHUNK;
    RoundTrip(writes, []);
    assert whole + [] == whole;
    TruncationIsNotClean(whole, whole[..cut]);
    var rest;
    payload, err, rest := Receive(whole[..cut], end, idle);
  }
}
