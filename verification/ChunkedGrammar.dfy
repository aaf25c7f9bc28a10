/**
 * The chunked coding as a grammar (RFC 9112, section 7.1), told from characters alone: size lines
 * in digits of either case, ended by CRLF or, as bufio takes it, by a bare line feed; data; CRLF.
 * The decoder accepts exactly what the grammar generates, with the same payload.
 */
module ChunkedGrammar {
  import opened Wrappers
  import opened Words
  import opened Bufio
  import opened ChunkedCoding
  import opened ChunkedIO

  /** "0123456789abcdef" and "0123456789ABCDEF" */
  const LOWER: seq<byte> := [48, 49, 50, 51, 52, 53, 54, 55, 56, 57, 97, 98, 99, 100, 101, 102]
  const UPPER: seq<byte> := [48, 49, 50, 51, 52, 53, 54, 55, 56, 57, 65, 66, 67, 68, 69, 70]

  /** `s` writes `n` in base sixteen, in any mixture of cases; the empty string writes zero. */
  predicate Spells(s: seq<byte>, n: nat) {
    if s == [] then n == 0
    else s[|s| - 1] in {LOWER[n % 16], UPPER[n % 16]} && Spells(s[..|s| - 1], n / 16)
  }

  lemma DigitsInOrder(b: byte, d: nat)
    requires d < 16
    ensures b in {LOWER[d], UPPER[d]} <==> IsHex(b) && DigitValue(b) == d
  {
  }

  /** The digits the reader accepts, and what they are worth to it, are the sixteen in both cases. */
  lemma {:induction false} SpellsExactly(s: seq<byte>, n: nat)
    ensures Spells(s, n) <==> AllHex(s) && HexValue(s) == n
  {
    if s != [] {
      var (init, b) := (s[..|s| - 1], s[|s| - 1]);
      SpellsExactly(init, n / 16);
      DigitsInOrder(b, n % 16);
      assert AllHex(s) <==> AllHex(init) && IsHex(b) by {
        assert forall i :: 0 <= i < |init| ==> init[i] == s[i];
      }
    }
  }

  /** `s` is `p` with any of its letters capitalised. */
  predicate Capitalised(p: seq<byte>, s: seq<byte>) {
    |s| == |p| && forall i :: 0 <= i < |p| ==> s[i] == p[i] || (97 <= p[i] <= 102 && s[i] == p[i] - 32)
  }

  lemma {:induction false} CapitalsSpell(p: seq<byte>, s: seq<byte>, n: nat)
    requires Spells(p, n) && Capitalised(p, s)
    ensures Spells(s, n)
  {
    if s != [] {
      CapitalsSpell(p[..|p| - 1], s[..|s| - 1], n / 16);
      CapitalDigit(p[|p| - 1], s[|s| - 1], n % 16);
    }
  }

  lemma CapitalDigit(p: byte, b: byte, d: nat)
    requires d < 16 && p in {LOWER[d], UPPER[d]} && (b == p || (97 <= p <= 102 && b == p - 32))
    ensures b in {LOWER[d], UPPER[d]}
  {
  }

  /** A printed size keeps its value in whatever case its letters are. */
  lemma AnyCase(n: nat, s: seq<byte>)
    requires Capitalised(HexPrint(n), s)
    ensures AllHex(s) && HexValue(s) == n
  {
    HexRoundTrip(n);
    SpellsExactly(HexPrint(n), n);
    CapitalsSpell(HexPrint(n), s, n);
    SpellsExactly(s, n);
  }

  // ----- the grammar

  /** A chunk with its size as it is written; `bare` for a size line without the carriage return. */
  datatype Chunk = Chunk(size: seq<byte>, bare: bool, data: seq<byte>)
  {
    /** At most fifteen digits, none at all for zero. */
    predicate Valid() {
      |size| <= 15 && Spells(size, |data|)
    }

    function Bytes(): seq<byte> {
      SizeBytes(size, bare) + data + [13, 10]
    }
  }

  function SizeBytes(size: seq<byte>, bare: bool): seq<byte> {
    size + if bare then [10] else [13, 10]
  }

  function Bytes(cs: seq<Chunk>): seq<byte> {
    if cs == [] then [] else cs[0].Bytes() + Bytes(cs[1..])
  }

  function Payload(cs: seq<Chunk>): seq<byte> {
    if cs == [] then [] else cs[0].data + Payload(cs[1..])
  }

  /** Chunks with data, and one without at the end. */
  predicate Coding(cs: seq<Chunk>) {
    && cs != []
    && forall i :: 0 <= i < |cs| ==> cs[i].Valid() && (cs[i].data == [] <==> i == |cs| - 1)
  }

  lemma LineOf(size: seq<byte>, bare: bool, u: seq<byte>)
    requires AllHex(size)
    ensures Line(SizeBytes(size, bare) + u) == (size, u)
  {
    if bare {
      assert SizeBytes(size, bare) + u == size + ([10] + u);
      LineIsBare(size, u);
    } else {
      assert SizeBytes(size, bare) + u == size + CRLF + u;
      LineOfPrinted(size, u);
    }
  }

  lemma SizeLineOf(size: seq<byte>, bare: bool, n: nat, u: seq<byte>)
    requires |size| <= 15 && Spells(size, n)
    ensures SizeLine(SizeBytes(size, bare) + u) == Some((n, u))
  {
    SpellsExactly(size, n);
    LineOf(size, bare, u);
  }

  lemma LineIsBare(size: seq<byte>, u: seq<byte>)
    requires AllHex(size)
    ensures Line(size + ([10] + u)) == (size, u)
  {
    var s := size + ([10] + u);
    IndexAfter(size, [10] + u, LF);
    assert s[..|size|] == size && s[|size| + 1..] == u;
  }

  lemma DecodeChunk(c: Chunk, t: seq<byte>)
    requires c.Valid()
    ensures Decode(c.Bytes() + t) == if c.data == [] then Decoded([], true, t) else Prepend(c.data, Decode(t))
  {
    var u := c.data + [13, 10] + t;
    assert c.Bytes() + t == SizeBytes(c.size, c.bare) + u;
    SizeLineOf(c.size, c.bare, |c.data|, u);
    assert u[..|c.data|] == c.data && EndsLine(u, |c.data|) && u[|c.data| + 2..] == t;
  }

  /** Everything the grammar generates is accepted, with its payload, and nothing behind it is touched. */
  lemma {:induction false} GrammarIsAccepted(cs: seq<Chunk>, tail: seq<byte>)
    requires Coding(cs)
    ensures Decode(Bytes(cs) + tail) == Decoded(Payload(cs), true, tail)
  {
    var (c, more) := (cs[0], cs[1..]);
    assert Bytes(cs) + tail == c.Bytes() + (Bytes(more) + tail);
    DecodeChunk(c, Bytes(more) + tail);
    if more == [] {
      assert Bytes(more) + tail == tail && c.data + Payload(more) == [];
    } else {
      assert forall i :: 0 <= i < |more| ==> more[i] == cs[i + 1];
      GrammarIsAccepted(more, tail);
    }
  }

  /** What a size line was, if it was one. */
  lemma SizeLineIs(s: seq<byte>) returns (size: seq<byte>, bare: bool)
    requires SizeLine(s).Some? && LF in s
    ensures var (n, t) := SizeLine(s).value;
            |size| <= 15 && Spells(size, n) && s == SizeBytes(size, bare) + t
  {
    var i := IndexOf(s, LF);
    size, bare := TrimCR(s[..i]), TrimCR(s[..i]) == s[..i];
    SpellsExactly(size, SizeLine(s).value.0);
    assert s == s[..i] + [10] + s[i + 1..];
    assert !bare ==> s[..i] == size + [13];
  }

  lemma SplitChunk(size: seq<byte>, bare: bool, t: seq<byte>, n: nat)
    requires EndsLine(t, n)
    ensures SizeBytes(size, bare) + t == Chunk(size, bare, t[..n]).Bytes() + t[n + 2..]
  {
    assert t == t[..n] + [13, 10] + t[n + 2..];
  }

  /** The first chunk of an accepted stream. */
  lemma FirstChunk(s: seq<byte>) returns (c: Chunk, u: seq<byte>)
    requires Decode(s).clean
    ensures c.Valid() && s == c.Bytes() + u && |u| < |s|
  {
    HasLine(s);
    var (n, t) := SizeLine(s).value;
    var size, bare := SizeLineIs(s);
    SplitChunk(size, bare, t, n);
    c, u := Chunk(size, bare, t[..n]), t[n + 2..];
  }

  lemma HasLine(s: seq<byte>)
    requires Decode(s).clean
    ensures LF in s && var (n, t) := SizeLine(s).value; EndsLine(t, n)
  {
    assert !InChunk(SizeLine(s).value.0, SizeLine(s).value.0 == 0, []).clean;
  }

  lemma OneMoreChunk(c: Chunk, cs: seq<Chunk>, rest: seq<byte>)
    ensures Bytes([c] + cs) + rest == c.Bytes() + (Bytes(cs) + rest) && Payload([c] + cs) == c.data + Payload(cs)
  {
    assert ([c] + cs)[1..] == cs;
  }

  /** `s` is the coding `cs` and what follows it; `d` says so. */
  predicate Parsed(s: seq<byte>, d: Decoded, cs: seq<Chunk>) {
    Coding(cs) && s == Bytes(cs) + d.rest && Payload(cs) == d.payload
  }

  lemma OneMoreParsed(c: Chunk, u: seq<byte>, d: Decoded, more: seq<Chunk>)
    requires c.Valid() && c.data != [] && Parsed(u, d, more)
    ensures Parsed(c.Bytes() + u, Prepend(c.data, d), [c] + more)
  {
    OneMoreChunk(c, more, d.rest);
  }

  lemma LastParsed(c: Chunk, u: seq<byte>)
    requires c.Valid() && c.data == []
    ensures Parsed(c.Bytes() + u, Decoded([], true, u), [c])
  {
    OneMoreChunk(c, [], u);
    assert [c] + [] == [c];
  }

  /** And nothing else is accepted. */
  lemma {:induction false} AcceptedIsGrammar(s: seq<byte>) returns (cs: seq<Chunk>)
    requires Decode(s).clean
    ensures Parsed(s, Decode(s), cs)
    decreases |s|
  {
    var c, u := FirstChunk(s);
    DecodeChunk(c, u);
    if c.data == [] {
      LastParsed(c, u);
      cs := [c];
    } else {
      var more := AcceptedIsGrammar(u);
      OneMoreParsed(c, u, Decode(u), more);
      cs := [c] + more;
    }
  }

  predicate Generates(cs: seq<Chunk>, tail: seq<byte>, s: seq<byte>) {
    Coding(cs) && s == Bytes(cs) + tail
  }

  /** Accepted exactly if generated: the grammar and the decoder name the same streams and payloads. */
  lemma AcceptsExactly(s: seq<byte>)
    ensures Decode(s).clean <==> exists cs, tail :: Generates(cs, tail, s)
    ensures forall cs, tail :: Generates(cs, tail, s) ==> Decode(s) == Decoded(Payload(cs), true, tail)
  {
    if Decode(s).clean {
      var cs := AcceptedIsGrammar(s);
      assert Generates(cs, Decode(s).rest, s);
    }
    forall cs, tail | Generates(cs, tail, s) ensures Decode(s) == Decoded(Payload(cs), true, tail) {
      GrammarIsAccepted(cs, tail);
    }
  }

  // ----- what the writer prints

  /** Lower case, and no zero in front but of zero itself. */
  lemma {:induction false} PrintedSize(n: nat)
    ensures var s := HexPrint(n);
            && Spells(s, n) && (forall i :: 0 <= i < |s| ==> s[i] in LOWER) && (s[0] == 48 <==> n == 0)
  {
    HexRoundTrip(n);
    SpellsExactly(HexPrint(n), n);
    if n >= 16 {
      PrintedSize(n / 16);
      assert HexPrint(n) == HexPrint(n / 16) + [LOWER[n % 16]];
    }
  }

  /** Every write that is not empty is one chunk in that spelling, and the last chunk is five fixed bytes. */
  lemma WriterPrints(data: seq<byte>)
    ensures EncodeChunk(data) == if data == [] then [] else Chunk(HexPrint(|data|), false, data).Bytes()
    ensures LAST_CHUNK == [48, 13, 10, 13, 10] == Chunk([48], false, []).Bytes()
  {
    var size := HexPrint(|data|);
    assert size + CRLF + data + CRLF == SizeBytes(size, false) + data + [13, 10];
  }

  // ----- streams that are not well formed

  /** What is delivered before the first error: the chunks before it, and of the broken one the data that is there. */
  lemma {:induction false} AfterChunks(cs: seq<Chunk>, t: seq<byte>)
    requires forall i :: 0 <= i < |cs| ==> cs[i].Valid() && cs[i].data != []
    ensures Decode(Bytes(cs) + t) == Prepend(Payload(cs), Decode(t))
  {
    if cs == [] {
      assert Bytes(cs) + t == t;
      PrependNothing(Decode(t));
    } else {
      var (c, more) := (cs[0], cs[1..]);
      assert Bytes(cs) + t == c.Bytes() + (Bytes(more) + t);
      DecodeChunk(c, Bytes(more) + t);
      AfterChunks(more, t);
      PrependTwice(c.data, Payload(more), Decode(t));
    }
  }

  /** A chunk whose data is not followed by CRLF ends the stream there, the data delivered. */
  lemma BadEnd(c: Chunk, t: seq<byte>)
    requires c.Valid() && !([13, 10] <= t)
    ensures Decode(SizeBytes(c.size, c.bare) + (c.data + t)) == Decoded(c.data, false, [])
  {
    SizeLineOf(c.size, c.bare, |c.data|, c.data + t);
    NoEnd(c.data, c.data == [], t);
  }

  lemma NoEnd(data: seq<byte>, last: bool, t: seq<byte>)
    requires !([13, 10] <= t)
    ensures InChunk(|data|, last, data + t) == Decoded(data, false, [])
  {
    var u := data + t;
    assert u[..|data|] == data && (EndsLine(u, |data|) <==> [13, 10] <= t);
  }

  /** A first line that is not a size of at most fifteen digits delivers nothing. */
  lemma BadSize(line: seq<byte>, t: seq<byte>)
    requires 10 !in line && (|line| > 15 || exists i :: 0 <= i < |line| && line[i] !in LOWER && line[i] !in UPPER)
    ensures Decode(line + [13, 10] + t) == BAD
  {
    var s := line + [13, 10] + t;
    assert s == (line + [13]) + ([10] + t);
    IndexAfter(line + [13], [10] + t, LF);
    assert s[..|line| + 1] == line + [13] && Line(s) == (line, t);
    if AllHex(line) {
      forall i | 0 <= i < |line| ensures line[i] in LOWER || line[i] in UPPER {
        DigitsInOrder(line[i], DigitValue(line[i]));
      }
    }
  }

  // ----- through the reader

  /** Any spelling of a coding comes out of the incremental reader as its payload, then io.EOF, the rest untouched. */
  method ReceiveCoding(cs: seq<Chunk>, tail: seq<byte>, end: Error, idle: nat)
    returns (payload: seq<byte>, err: ReadResult, rest: seq<byte>)
    requires end != NoError && Coding(cs)
    ensures payload == Payload(cs) && err == CleanEof && rest == tail
  {
    GrammarIsAccepted(cs, tail);
    payload, err, rest := Receive(Bytes(cs) + tail, end, idle);
  }
}
