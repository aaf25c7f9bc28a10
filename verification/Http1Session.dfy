/**
 * Reading response bodies on one HTTP/1.1 connection: readResponse chooses a reader from the
 * framing decision, Session.Read delivers the body, and a fully read body leaves the logical
 * stream (buffered bytes, then unread ones) at the next response.
 */
module Http1Session {
  import opened Words
  import opened Bufio
  import opened ChunkedCoding
  import opened ChunkedIO
  import opened ListWalk
  import F = Framing
  import G = ChunkedGrammar

  /** A read error passed on as it is: here io.EOF stays io.EOF. */
  function PassedOn(err: Error): ReadResult {
    match err
    case NoError => Fine
    case Eof => CleanEof
    case Broken => ConnBroken
  }

  /** The body `n` bytes long at the front of `t`. */
  function FixedLength(n: nat, t: seq<byte>): Decoded {
    if n <= |t| then Decoded(t[..n], true, t[n..]) else Decoded(t, false, [])
  }

  class Session {
    const br: Reader
    var needClose: bool
    var remaining: int               // starts as the content length; -1 when a decoder finds the end
    var readraw: bool
    var reader: ChunkedReader?
    var layers: nat                  // decoders stacked by readResponse; `reader` is the first

    constructor (br: Reader)
      ensures this.br == br && !readraw && reader == null && layers == 0 && remaining == 0 && !needClose
    {
      this.br := br;
      needClose, remaining, readraw, reader, layers := false, 0, false, null, 0;
    }

    /** A body that can be read: empty, of known length, or behind one chunked decoder. */
    ghost predicate Readable()
      reads this, br, br.conn, reader
    {
      && br.Valid()
      && (remaining == 0
          || (remaining > 0 && readraw)
          || (remaining == -1 && !readraw && layers == 1 && reader != null && reader.br == br && reader.Valid()))
    }

    /** What is still to be delivered and what follows it. */
    ghost function Body(): Decoded
      requires Readable()
      reads this, br, br.conn, reader
    {
      if remaining >= 0 then FixedLength(remaining, br.Rest()) else reader.Pending()
    }

    /** First what is buffered, then, if enough room is left, one direct read of the connection. */
    method ReadRaw(room: nat) returns (data: seq<byte>, err: Error)
      requires br.Valid()
      modifies br, br.conn
      ensures br.Valid() && old(br.Rest()) == data + br.Rest() && |data| <= room
      ensures err != NoError ==> err == br.conn.end && br.Rest() == []
      ensures room > 0 && data == [] ==> err != NoError
    {
      var n := |br.buffered|;
      data := [];
      if n != 0 {
        if n >= room {
          data, err := br.Read(room);
          return;
        }
        data, err := br.Read(n);
        assert |data| == n && err == NoError;  // so the panic below this read is unreachable
        if room - n < 32 {
          return;
        }
      }
      ghost var first := data;
      ghost var before := br.conn.unread;
      assert n != 0 ==> data + br.buffered == old(br.buffered) && br.buffered == [];
      var more;
      more, err := br.conn.Read(room - n);
      assert old(br.Rest()) == first + before;
      data := data + more;
      assert first + (more + br.conn.unread) == data + br.conn.unread;
    }

    /**
     * Moves the next bytes of the body to the caller. When the stream holds the whole body, the
     * first error leaves it exactly behind the body; a body cut short by the connection ends in a
     * plain io.EOF if its length was known, and never if it was chunked.
     */
    method Read(room: nat) returns (data: seq<byte>, err: ReadResult)
      requires Readable()
      modifies this`remaining, br, br.conn, reader
      ensures br.Valid() && |data| <= room
      ensures err == Fine ==> Readable() && old(Body()) == Prepend(data, Body())
      ensures err != Fine ==> data == old(Body()).payload
      ensures err != Fine && old(Body()).clean ==>
                br.Rest() == old(Body()).rest && (err == CleanEof || (err == ConnBroken && br.Rest() == []))
      ensures err != Fine && !old(Body()).clean ==>
                (err == CleanEof <==> old(remaining) > 0 && br.conn.end == Eof)
      ensures remaining >= 0 <==> old(remaining) >= 0
      ensures err == Fine && room > 0 ==> data != []
    {
      if remaining == 0 {
        return [], CleanEof;
      }
      if readraw && remaining > 0 {
        data, err := ReadFixed(room);
      } else {
        data, err := reader.Read(room);
      }
    }

    /** The branch for a known length. */
    method ReadFixed(room: nat) returns (data: seq<byte>, err: ReadResult)
      requires br.Valid() && remaining > 0
      modifies this`remaining, br, br.conn
      ensures br.Valid() && |data| <= room && 0 <= remaining == old(remaining) - |data|
      ensures FixedLength(old(remaining), old(br.Rest())) == Prepend(data, FixedLength(remaining, br.Rest()))
      ensures err != Fine ==> err == PassedOn(br.conn.end) && br.Rest() == []
      ensures err == Fine && room > 0 ==> data != []
    {
      var e;
      data, e := ReadRaw(if remaining < room then remaining else room);
      FixedLengthAfter(remaining, data, br.Rest());
      err := PassedOn(e);
      remaining := remaining - |data|;
    }
  }

  lemma FixedLengthAfter(n: nat, data: seq<byte>, rest: seq<byte>)
    requires |data| <= n
    ensures FixedLength(n, data + rest) == Prepend(data, FixedLength(n - |data|, rest))
  {
    if n <= |data + rest| {
      assert (data + rest)[..n] == data + rest[..n - |data|];
      assert (data + rest)[n..] == rest[n - |data|..];
    }
  }

  // ----- from the framing decision to a reader

  predicate AllChunked(es: seq<string>) {
    forall i :: 0 <= i < |es| ==> es[i] == "chunked"
  }

  /** readResponse: one decoder for every `chunked`, an error for any other coding. */
  method ReadResponse(br: Reader, framed: F.Framed) returns (s: Session, ok: bool)
    requires br.Valid() && framed.Framed? && framed.contentLength >= -1
    requires framed.transferEncoding != "" ==> framed.contentLength == -1
    ensures fresh(s) && (s.reader != null ==> fresh(s.reader)) && s.br == br && s.needClose == framed.close
    ensures s.remaining == framed.contentLength
    ensures ok <==> framed.transferEncoding == "" || AllChunked(Elements(framed.transferEncoding))
    ensures ok && framed.transferEncoding != "" ==> s.layers == |Elements(framed.transferEncoding)|
    ensures ok && framed.contentLength >= 0 ==> s.Readable() && s.Body() == FixedLength(framed.contentLength, br.Rest())
    ensures ok && framed.transferEncoding != "" && |Elements(framed.transferEncoding)| == 1 ==>
              s.Readable() && s.Body() == Decode(br.Rest())
  {
    s := new Session(br);
    s.needClose, s.remaining, ok := framed.close, framed.contentLength, true;
    if framed.transferEncoding != "" {
      var layers;
      ok, layers := CountDecoders(framed.transferEncoding);
      if layers > 0 {
        s.layers := layers;
        s.reader := new ChunkedReader(br);
      }
    } else if framed.contentLength > 0 {
      s.readraw := true;
    }
  }

  /** The walk over the codings: every `chunked` adds a decoder, anything else is an error. */
  method CountDecoders(te: string) returns (ok: bool, layers: nat)
    ensures ok <==> AllChunked(Elements(te))
    ensures ok ==> layers == |Elements(te)|
  {
    var last, calls := WalkReverse(te, Fn(_ => true));
    WalkedReverse(Elements(te));
    ok, layers := true, 0;
    var i := 0;
    while i < |calls|
      invariant 0 <= i <= |calls|
      invariant ok <==> forall j :: 0 <= j < i ==> calls[j] == "chunked"
      invariant ok ==> layers == i
    {
      if calls[i] == "chunked" {
        layers := layers + 1;
      } else {
        ok := false;
      }
      i := i + 1;
    }
  }

  lemma WalkedReverse(es: seq<string>)
    ensures var calls := Walked(Reverse(es), _ => true);
            |calls| == |es| && (AllChunked(es) <==> forall j :: 0 <= j < |calls| ==> calls[j] == "chunked")
  {
    F.WalkedAll(Reverse(es));
    F.ReverseLength(es);
    F.AllEqualReversed(es, "chunked");
  }

  /**
   * Reads the body to its first error, with buffer sizes chosen at will. A body that is all there
   * comes out whole and leaves the stream behind it. One that the connection cuts short comes out as
   * far as it goes, and ends in a plain io.EOF exactly if its length was known and the connection
   * ended in one.
   */
  method ReadBody(s: Session, idle: nat) returns (body: seq<byte>, err: ReadResult)
    requires s.Readable()
    modifies s, s.br, s.br.conn, s.reader
    ensures s.br.Valid() && err != Fine && body == old(s.Body()).payload
    ensures old(s.Body()).clean ==>
              s.br.Rest() == old(s.Body()).rest && (err == CleanEof || (err == ConnBroken && s.br.Rest() == []))
    ensures !old(s.Body()).clean ==> (err == CleanEof <==> old(s.remaining) > 0 && s.br.conn.end == Eof)
  {
    body, err := [], Fine;
    var spare := idle;
    ghost var whole, left := s.Body(), s.Body();
    assert whole == Prepend([], left);
    while err == Fine
      invariant s.reader == old(s.reader) && s.br.Valid()
      invariant s.remaining >= 0 <==> old(s.remaining) >= 0
      invariant err == Fine ==> s.Readable() && left == s.Body() && whole == Prepend(body, left)
      invariant err != Fine ==> body == whole.payload
      invariant err != Fine && whole.clean ==>
                  s.br.Rest() == whole.rest && (err == CleanEof || (err == ConnBroken && s.br.Rest() == []))
      invariant err != Fine && !whole.clean ==> (err == CleanEof <==> old(s.remaining) > 0 && s.br.conn.end == Eof)
      decreases err == Fine, |left.payload|, spare
    {
      var room: nat := *;
      if room == 0 && spare == 0 {
        room := 1;
      } else if room == 0 {
        spare := spare - 1;
      }
      NotCleanIsLeft(s);
      var data;
      data, err := s.Read(room);
      if err == Fine {
        PrependTwice(body, data, s.Body());
        left := s.Body();
      }
      body := body + data;
    }
  }

  /** A body of known length that is not all there has bytes left to read. */
  lemma NotCleanIsLeft(s: Session)
    requires s.Readable()
    ensures s.remaining >= 0 && !s.Body().clean ==> s.remaining > 0
  {
  }

  // ----- responses back to back

  /** A response as it is sent: header bytes, the fields they hold, and the body in its coding. */
  datatype Message = Message(req: F.Request, header: seq<byte>, head: F.Head, wire: seq<byte>, body: seq<byte>)

  /** `wire` is `body` delimited as `b` says: by its length, or by the chunked coding. */
  ghost predicate Delimited(b: F.Body, wire: seq<byte>, body: seq<byte>) {
    match b
    case Known(n) => wire == body && |wire| == n
    case Chunked => Decode(wire) == Decoded(body, true, [])
    case _ => false
  }

  /**
   * A response of a server that frames as section 6.3 of RFC 9112 says and wants the connection
   * kept: one that the client frames alike, with no coding but a single `chunked`.
   */
  ghost predicate Keepable(m: Message) {
    && F.WellFormedProto(m.head.proto) && F.LegalFields(m.head) && F.Conforms(m.req, m.head)
    && m.head.connection != "close" && m.req.connection != "close"
    && var b := F.RfcBody(m.req, m.head);
       && Delimited(b, m.wire, m.body)
       && (b.Chunked? ==> F.Codings(m.head.transferEncodings) == ["chunked"])
  }

  function Stream(ms: seq<Message>): seq<byte> {
    if ms == [] then [] else ms[0].header + ms[0].wire + Stream(ms[1..])
  }

  function Bodies(ms: seq<Message>): seq<seq<byte>> {
    if ms == [] then [] else [ms[0].body] + Bodies(ms[1..])
  }

  /** The header parser reads through the same buffered reader and takes the header's bytes. */
  method TakeHeader(br: Reader, n: nat)
    requires br.Valid() && n <= |br.Rest()|
    modifies br, br.conn
    ensures br.Valid() && br.Rest() == old(br.Rest())[n..]
  {
    var i := 0;
    while i < n
      invariant 0 <= i <= n && br.Valid() && br.Rest() == old(br.Rest())[i..]
    {
      var b, e := br.ReadByte();
      i := i + 1;
    }
  }

  /** A keepable message is framed as it is delimited, and its connection is kept. */
  method FrameMessage(m: Message) returns (framed: F.Framed)
    requires Keepable(m)
    ensures framed.Framed? && !framed.close && framed.contentLength >= -1
    ensures framed.transferEncoding != "" ==>
              framed.contentLength == -1 && Elements(framed.transferEncoding) == ["chunked"]
    ensures framed.Meaning() == F.RfcBody(m.req, m.head) && Delimited(framed.Meaning(), m.wire, m.body)
  {
    framed := F.ReadHeader(m.req, m.head);
    F.FollowsRfcExactly(m.req, m.head);
  }

  /** What a reader set up for a delimited body will deliver from the front of the stream. */
  lemma DelimitedBody(framed: F.Framed, wire: seq<byte>, body: seq<byte>, after: seq<byte>)
    requires framed.Framed? && Delimited(framed.Meaning(), wire, body)
    ensures framed.transferEncoding == "" ==>
              framed.contentLength >= 0 && FixedLength(framed.contentLength, wire + after) == Decoded(body, true, after)
    ensures framed.transferEncoding != "" ==> Decode(wire + after) == Decoded(body, true, after)
  {
    if framed.transferEncoding != "" {
      DecodeExtends(wire, after);
      assert [] + after == after;
    } else {
      assert (wire + after)[..|wire|] == wire && (wire + after)[|wire|..] == after;
    }
  }

  /** One response: header, framing, body. */
  method ReadOne(br: Reader, m: Message, idle: nat, ghost after: seq<byte>) returns (body: seq<byte>)
    requires br.Valid() && Keepable(m) && br.Rest() == m.header + (m.wire + after)
    modifies br, br.conn
    ensures body == m.body && br.Valid() && br.Rest() == after
  {
    TakeHeader(br, |m.header|);
    assert br.Rest() == m.wire + after;
    var framed := FrameMessage(m);
    DelimitedBody(framed, m.wire, m.body, after);
    var s, ok := ReadResponse(br, framed);
    var err;
    body, err := ReadBody(s, idle);
  }

  // ----- ordinary responses

  lemma DigitsArePlain(n: nat)
    ensures Plain(F.DecimalPrint(n))
  {
    F.PrintWrites(n);
    F.WritesExactly(F.DecimalPrint(n), n);
  }

  /** An answer that may have a body, from a server that keeps the connection, with these fields. */
  predicate Ordinary(m: Message, contentLengths: seq<string>, transferEncodings: seq<string>) {
    && m.head.proto == "HTTP/" + [F.DIGITS[1]] + "." + [F.DIGITS[1]]
    && m.req.verb != "HEAD" && m.req.verb != "CONNECT"
    && m.head.status >= 200 && m.head.status != 204 && m.head.status != 304
    && m.req.connection != "close" && m.head.connection != "close"
    && m.head.contentLengths == contentLengths && m.head.transferEncodings == transferEncodings
  }

  /** Its length in decimal, and that many bytes. */
  lemma KeepableByLength(m: Message)
    requires Ordinary(m, [F.DecimalPrint(|m.body|)], []) && m.wire == m.body && |m.body| < 0x8000_0000_0000_0000
    ensures Keepable(m)
  {
    var n := |m.body|;
    F.PackedDigits(m.head.proto, 1, 1);
    DigitsArePlain(n);
    F.PrintedLength(n);
    F.DecimalRoundTrip(n);
    F.LengthsExactly([F.DecimalPrint(n)]);
  }

  lemma FramedByChunks(m: Message, e: string)
    requires Ordinary(m, [], [e]) && F.Bare(e) && Plain(e) && e == "chunked" == F.Lower(e)
    ensures F.WellFormedProto(m.head.proto) && F.LegalFields(m.head) && F.Conforms(m.req, m.head)
    ensures F.RfcBody(m.req, m.head) == F.Chunked && F.Codings(m.head.transferEncodings) == ["chunked"]
  {
    F.PackedDigits(m.head.proto, 1, 1);
    F.PlainlyChunked(m.req, m.head, e);
  }

  /** The coding `chunked`, and any spelling of one. */
  lemma KeepableByChunks(m: Message, cs: seq<G.Chunk>)
    requires Ordinary(m, [], ["chunked"]) && G.Coding(cs) && m.wire == G.Bytes(cs) && m.body == G.Payload(cs)
    ensures Keepable(m)
  {
    F.Spellings();
    FramedByChunks(m, "chunked");
    WholeCoding(cs);
  }

  lemma WholeCoding(cs: seq<G.Chunk>)
    requires G.Coding(cs)
    ensures Decode(G.Bytes(cs)) == Decoded(G.Payload(cs), true, [])
  {
    G.GrammarIsAccepted(cs, []);
    assert G.Bytes(cs) + [] == G.Bytes(cs);
  }

  // ----- responses cut short

  /** What a reader set up for a delimited body will deliver of a proper prefix of it. */
  lemma CutBody(framed: F.Framed, wire: seq<byte>, body: seq<byte>, cut: nat)
    requires framed.Framed? && Delimited(framed.Meaning(), wire, body) && cut < |wire|
    ensures framed.transferEncoding == "" ==>
              && framed.contentLength > 0
              && FixedLength(framed.contentLength, wire[..cut]) == Decoded(body[..cut], false, [])
    ensures framed.transferEncoding != "" ==> !Decode(wire[..cut]).clean && Decode(wire[..cut]).payload <= body
  {
    if framed.transferEncoding != "" {
      TruncationIsNotClean(wire, wire[..cut]);
    }
  }

  /** The body, once the response is framed and what is left of the stream is part of it. */
  method ReadCut(br: Reader, framed: F.Framed, ghost wire: seq<byte>, ghost whole: seq<byte>, ghost cut: nat, idle: nat)
    returns (body: seq<byte>, err: ReadResult)
    requires br.Valid() && framed.Framed? && framed.contentLength >= -1
    requires framed.transferEncoding != "" ==>
               framed.contentLength == -1 && Elements(framed.transferEncoding) == ["chunked"]
    requires Delimited(framed.Meaning(), wire, whole) && cut < |wire| && br.Rest() == wire[..cut]
    modifies br, br.conn
    ensures body <= whole && err != Fine && (framed.Meaning().Known? ==> body == whole[..cut])
    ensures err == CleanEof <==> framed.Meaning().Known? && br.conn.end == Eof
  {
    CutBody(framed, wire, whole, cut);
    var s, ok := ReadResponse(br, framed);
    body, err := ReadBody(s, idle);
  }

  /**
   * A response whose connection ends within the body: what is delivered is a prefix of the body; a
   * chunked body never ends in a plain io.EOF, and a body of known length always does if the
   * connection is closed in an orderly way.
   */
  method ServeCutShort(m: Message, cut: nat, end: Error, idle: nat) returns (body: seq<byte>, err: ReadResult)
    requires end != NoError && Keepable(m) && cut < |m.wire|
    ensures body <= m.body && err != Fine
    ensures F.RfcBody(m.req, m.head).Known? ==> body == m.body[..cut]
    ensures err == CleanEof <==> F.RfcBody(m.req, m.head).Known? && end == Eof
  {
    var conn := new Transport(m.header + m.wire[..cut], end);
    var br := new Reader(conn);
    TakeHeader(br, |m.header|);
    assert br.Rest() == m.wire[..cut];
    var framed := FrameMessage(m);
    body, err := ReadCut(br, framed, m.wire, m.body, cut, idle);
  }

  /** Two bytes of a body of five, and the caller is told that this was all. */
  method TwoOfFive(idle: nat) returns (body: seq<byte>, err: ReadResult)
    ensures body == [104, 101] && err == CleanEof
  {
    var conn := new Transport([104, 101], Eof);
    var br := new Reader(conn);
    var s, ok := ReadResponse(br, F.Framed(false, 5, ""));
    body, err := ReadBody(s, idle);
  }

  lemma StreamFrom(ms: seq<Message>, i: nat, tail: seq<byte>)
    requires i < |ms|
    ensures Stream(ms[i..]) + tail == ms[i].header + (ms[i].wire + (Stream(ms[i + 1..]) + tail))
    ensures Bodies(ms[i..]) == [ms[i].body] + Bodies(ms[i + 1..])
  {
    assert ms[i..][1..] == ms[i + 1..];
  }

  /**
   * Message boundaries: for any responses back to back, of known length or chunked, whatever the
   * piece sizes of the connection and of the caller's buffers, every body comes out exactly and the
   * logical stream is left at the next response; what follows the last one is not touched.
   */
  method ReadResponses(br: Reader, ms: seq<Message>, idle: nat, ghost tail: seq<byte>) returns (bodies: seq<seq<byte>>)
    requires br.Valid() && br.Rest() == Stream(ms) + tail
    requires forall i :: 0 <= i < |ms| ==> Keepable(ms[i])
    modifies br, br.conn
    ensures bodies == Bodies(ms) && br.Valid() && br.Rest() == tail
  {
    bodies := [];
    var i := 0;
    assert ms[0..] == ms;
    while i < |ms|
      invariant 0 <= i <= |ms| && br.Valid()
      invariant br.Rest() == Stream(ms[i..]) + tail
      invariant bodies + Bodies(ms[i..]) == Bodies(ms)
    {
      StreamFrom(ms, i, tail);
      var body := ReadOne(br, ms[i], idle, Stream(ms[i + 1..]) + tail);
      assert (bodies + [body]) + Bodies(ms[i + 1..]) == bodies + ([body] + Bodies(ms[i + 1..]));
      bodies := bodies + [body];
      i := i + 1;
    }
    assert ms[i..] == [] && [] + tail == tail;
  }

  /** The same from a fresh connection that delivers the responses and then anything at all. */
  method Serve(ms: seq<Message>, tail: seq<byte>, end: Error, idle: nat)
    returns (bodies: seq<seq<byte>>, rest: seq<byte>)
    requires end != NoError && forall i :: 0 <= i < |ms| ==> Keepable(ms[i])
    ensures bodies == Bodies(ms) && rest == tail
  {
    var conn := new Transport(Stream(ms) + tail, end);
    var br := new Reader(conn);
    bodies := ReadResponses(br, ms, idle, tail);
    rest := br.buffered + conn.unread;
  }
}
