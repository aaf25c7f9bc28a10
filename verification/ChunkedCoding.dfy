/**
 * The chunked transfer coding as functions on whole byte strings: what the writer prints, and a
 * one-shot decoder that says what a stream delivers up to its first error and whether it ends
 * cleanly (RFC 9112, section 7.1, without extensions and trailers).
 */
module ChunkedCoding {
  import opened Wrappers
  import opened Words
  import opened Bufio

  const CRLF: seq<byte> := [CR, LF]
  const LAST_CHUNK: seq<byte> := [48, CR, LF, CR, LF]  // "0\r\n\r\n"
  const MAX_DIGITS := 15

  // ----- sizes in hexadecimal

  predicate IsHex(b: byte) {
    48 <= b <= 57 || 97 <= b <= 102 || 65 <= b <= 70
  }

  function DigitValue(b: byte): nat
    requires IsHex(b)
  {
    if b <= 57 then b - 48 else if b >= 97 then b - 87 else b - 55
  }

  predicate AllHex(s: seq<byte>) {
    forall i :: 0 <= i < |s| ==> IsHex(s[i])
  }

  function HexValue(s: seq<byte>): nat
    requires AllHex(s)
  {
    if s == [] then 0 else HexValue(s[..|s| - 1]) * 16 + DigitValue(s[|s| - 1])
  }

  function Digit(d: nat): byte
    requires d < 16
  {
    if d < 10 then 48 + d else 87 + d
  }

  /** `%x` */
  function HexPrint(n: nat): seq<byte> {
    if n < 16 then [Digit(n)] else HexPrint(n / 16) + [Digit(n % 16)]
  }

  function Pow16(k: nat): nat {
    if k == 0 then 1 else 16 * Pow16(k - 1)
  }

  const SIZE_LIMIT := 0x1000_0000_0000_0000  // 2^60

  /** Parsing undoes printing; and exactly the sizes below 16^k print with at most k digits. */
  lemma {:induction false} HexRoundTrip(n: nat)
    ensures AllHex(HexPrint(n)) && HexValue(HexPrint(n)) == n
  {
    if n >= 16 {
      HexRoundTrip(n / 16);
      assert HexPrint(n)[..|HexPrint(n)| - 1] == HexPrint(n / 16);
    } else {
      assert [Digit(n)][..0] == [];
    }
  }

  lemma {:induction false} HexLength(n: nat, k: nat)
    requires k > 0
    ensures |HexPrint(n)| <= k <==> n < Pow16(k)
  {
    if n >= 16 && k > 1 {
      HexLength(n / 16, k - 1);
    } else if n >= 16 {
      assert |HexPrint(n / 16)| >= 1;
    } else if k > 1 {
      assert Pow16(k) == 16 * Pow16(k - 1);
      PowPositive(k - 1);
    }
  }

  lemma {:induction false} PowPositive(k: nat)
    ensures Pow16(k) >= 1
  {
    if k > 0 {
      PowPositive(k - 1);
    }
  }

  lemma {:induction false} HexBound(s: seq<byte>)
    requires AllHex(s)
    ensures HexValue(s) < Pow16(|s|)
  {
    if s != [] {
      HexBound(s[..|s| - 1]);
    }
  }

  lemma {:induction false} PowMonotone(j: nat, k: nat)
    requires j <= k
    ensures Pow16(j) <= Pow16(k)
  {
    if j < k {
      PowMonotone(j, k - 1);
      PowPositive(k - 1);
    }
  }

  lemma LimitIsPower()
    ensures Pow16(MAX_DIGITS) == SIZE_LIMIT
  {
    assert Pow16(4) == 0x1_0000;
    assert Pow16(8) == 0x1_0000_0000;
    assert Pow16(12) == 0x1_0000_0000_0000;
  }

  // ----- the writer's output

  /** What one Write puts on the wire; an empty one would look like the end and writes nothing. */
  function EncodeChunk(data: seq<byte>): seq<byte> {
    if data == [] then [] else HexPrint(|data|) + CRLF + data + CRLF
  }

  function Encode(writes: seq<seq<byte>>): seq<byte> {
    if writes == [] then [] else EncodeChunk(writes[0]) + Encode(writes[1..])
  }

  function Flatten(writes: seq<seq<byte>>): seq<byte> {
    if writes == [] then [] else writes[0] + Flatten(writes[1..])
  }

  lemma {:induction false} EncodeAppend(writes: seq<seq<byte>>, data: seq<byte>)
    ensures Encode(writes + [data]) == Encode(writes) + EncodeChunk(data)
  {
    if writes == [] {
      assert [data][1..] == [];
      assert Encode([data]) == EncodeChunk(data) + [];
      assert [] + [data] == [data];
    } else {
      assert (writes + [data])[1..] == writes[1..] + [data];
      EncodeAppend(writes[1..], data);
    }
  }

  // ----- the one-shot decoder

  /** What is delivered up to the first error, and for a clean end the bytes that follow the coding. */
  datatype Decoded = Decoded(payload: seq<byte>, clean: bool, rest: seq<byte>)

  const BAD := Decoded([], false, [])

  /** The first line, or all of a stream that has no line feed. */
  function Line(s: seq<byte>): (seq<byte>, seq<byte>) {
    if LF in s then FirstLine(s) else (s, [])
  }

  /** A chunk size, at most 15 digits and possibly none, and what follows its line. */
  function SizeLine(s: seq<byte>): (r: Option<(nat, seq<byte>)>)
    ensures r.Some? ==> |r.value.1| < |s|
  {
    if s == [] then None
    else
      var (line, rest) := Line(s);
      if AllHex(line) && |line| <= MAX_DIGITS then Some((HexValue(line), rest)) else None
  }

  function Decode(s: seq<byte>): Decoded
    decreases |s|, 1
  {
    match SizeLine(s)
    case None => BAD
    case Some((n, t)) => InChunk(n, n == 0, t)
  }

  /** From inside a chunk with `left` data bytes to come; `last` for the chunk of size 0. */
  function InChunk(left: nat, last: bool, t: seq<byte>): Decoded
    decreases |t|, 0
  {
    if |t| < left then Decoded(t, false, [])
    else if !EndsLine(t, left) then Decoded(t[..left], false, [])
    else if last then Decoded(t[..left], true, t[left + 2..])
    else Prepend(t[..left], Decode(t[left + 2..]))
  }

  predicate EndsLine(t: seq<byte>, i: nat) {
    i + 2 <= |t| && t[i] == CR && t[i + 1] == LF
  }

  function Prepend(data: seq<byte>, d: Decoded): Decoded {
    d.(payload := data + d.payload)
  }

  /** Every size the decoder accepts is below 2^60: a uint64 shift and an int64 conversion lose nothing. */
  lemma SizeIsSmall(s: seq<byte>)
    ensures SizeLine(s).Some? ==> SizeLine(s).value.0 < SIZE_LIMIT
  {
    if SizeLine(s).Some? {
      var line := Line(s).0;
      HexBound(line);
      PowMonotone(|line|, MAX_DIGITS);
      LimitIsPower();
    }
  }

  // ----- round trip

  lemma LineOfPrinted(digits: seq<byte>, t: seq<byte>)
    requires AllHex(digits)
    ensures Line(digits + CRLF + t) == (digits, t)
  {
    var s := digits + CRLF + t;
    assert s == (digits + [CR]) + ([LF] + t);
    IndexAfter(digits + [CR], [LF] + t, LF);
    assert s[..|digits| + 1] == digits + [CR] && s[|digits| + 2..] == t;
  }

  lemma PrintedDigits(n: nat)
    ensures |HexPrint(n)| <= MAX_DIGITS <==> n < SIZE_LIMIT
  {
    HexLength(n, MAX_DIGITS);
    LimitIsPower();
  }

  lemma InWholeChunk(data: seq<byte>, t: seq<byte>)
    ensures InChunk(|data|, false, data + CRLF + t) == Prepend(data, Decode(t))
  {
    var u := data + CRLF + t;
    assert u[..|data|] == data && EndsLine(u, |data|) && u[|data| + 2..] == t;
  }

  lemma DecodeOneChunk(data: seq<byte>, t: seq<byte>)
    requires data != []
    ensures Decode(EncodeChunk(data) + t) == if |data| < SIZE_LIMIT then Prepend(data, Decode(t)) else BAD
  {
    var (digits, u) := (HexPrint(|data|), data + CRLF + t);
    HexRoundTrip(|data|);
    PrintedDigits(|data|);
    assert EncodeChunk(data) + t == digits + CRLF + u by { ChunkShape(digits, data, t); }
    LineOfPrinted(digits, u);
    DecodeLine(digits + CRLF + u);
    InWholeChunk(data, t);
  }

  lemma ChunkShape(digits: seq<byte>, data: seq<byte>, t: seq<byte>)
    ensures digits + CRLF + data + CRLF + t == digits + CRLF + (data + CRLF + t)
  {
  }

  lemma DecodeLine(s: seq<byte>)
    requires s != []
    ensures var (line, t) := Line(s);
            Decode(s) == if AllHex(line) && |line| <= MAX_DIGITS then InChunk(HexValue(line), HexValue(line) == 0, t)
                         else BAD
  {
  }

  lemma DecodeLastChunk(tail: seq<byte>)
    ensures Decode(LAST_CHUNK + tail) == Decoded([], true, tail)
  {
    HexRoundTrip(0);
    assert LAST_CHUNK + tail == HexPrint(0) + CRLF + (CRLF + tail);
    LineOfPrinted(HexPrint(0), CRLF + tail);
    assert EndsLine(CRLF + tail, 0) && (CRLF + tail)[2..] == tail;
  }

  lemma PrependNothing(d: Decoded)
    ensures Prepend([], d) == d
  {
    assert [] + d.payload == d.payload;
  }

  lemma DecodeOneWrite(w: seq<byte>, t: seq<byte>)
    ensures Decode(EncodeChunk(w) + t) == if |w| < SIZE_LIMIT then Prepend(w, Decode(t)) else BAD
  {
    if w == [] {
      assert EncodeChunk(w) + t == t;
      PrependNothing(Decode(t));
    } else {
      DecodeOneChunk(w, t);
    }
  }

  lemma Regroup(chunk: seq<byte>, more: seq<byte>, tail: seq<byte>)
    ensures (chunk + more) + LAST_CHUNK + tail == chunk + (more + LAST_CHUNK + tail)
  {
  }

  predicate Printable(writes: seq<seq<byte>>) {
    forall i :: 0 <= i < |writes| ==> |writes[i]| < SIZE_LIMIT
  }

  /**
   * Round trip: decoding what the writer printed gives back the concatenated writes, ends cleanly,
   * and leaves the following bytes untouched, exactly when every write is shorter than 2^60 bytes;
   * a longer one prints a size the reader refuses.
   */
  lemma {:induction false} RoundTrip(writes: seq<seq<byte>>, tail: seq<byte>)
    ensures var d := Decode(Encode(writes) + LAST_CHUNK + tail);
            if Printable(writes) then d == Decoded(Flatten(writes), true, tail) else !d.clean
  {
    if writes == [] {
      DecodeLastChunk(tail);
      assert [] + LAST_CHUNK + tail == LAST_CHUNK + tail;
    } else {
      var (w, more) := (writes[0], writes[1..]);
      Regroup(EncodeChunk(w), Encode(more), tail);
      DecodeOneWrite(w, Encode(more) + LAST_CHUNK + tail);
      RoundTrip(more, tail);
      PrintableSplit(writes);
    }
  }

  lemma PrintableSplit(writes: seq<seq<byte>>)
    requires writes != []
    ensures Printable(writes) <==> |writes[0]| < SIZE_LIMIT && Printable(writes[1..])
  {
    assert forall i :: 1 <= i < |writes| ==> writes[i] == writes[1..][i - 1];
  }

  // ----- locality and truncation

  lemma LineExtends(s: seq<byte>, x: seq<byte>)
    requires LF in s
    ensures LF in s + x && Line(s + x) == (Line(s).0, Line(s).1 + x)
  {
    IndexInPrefix(s, x, LF);
    var i := IndexOf(s, LF);
    assert (s + x)[..i] == s[..i] && (s + x)[i + 1..] == s[i + 1..] + x;
  }

  /** A clean decoding looks at nothing behind the coding. */
  lemma {:induction false} DecodeExtends(s: seq<byte>, x: seq<byte>)
    requires Decode(s).clean
    ensures Decode(s + x) == Decode(s).(rest := Decode(s).rest + x)
    decreases |s|, 1
  {
    var (n, t) := SizeLine(s).value;
    assert !InChunk(n, n == 0, []).clean;
    LineExtends(s, x);
    InChunkExtends(n, n == 0, t, x);
  }

  lemma {:induction false} InChunkExtends(left: nat, last: bool, t: seq<byte>, x: seq<byte>)
    requires InChunk(left, last, t).clean
    ensures InChunk(left, last, t + x) == InChunk(left, last, t).(rest := InChunk(left, last, t).rest + x)
    decreases |t|, 0
  {
    assert (t + x)[..left] == t[..left] && EndsLine(t + x, left);
    assert (t + x)[left + 2..] == t[left + 2..] + x;
    if !last {
      DecodeExtends(t[left + 2..], x);
    }
  }

  /**
   * Truncation is never a clean end: any proper prefix of an accepted coding delivers a prefix of
   * the payload and does not end cleanly, wherever it is cut.
   */
  lemma {:induction false} TruncationIsNotClean(s: seq<byte>, t: seq<byte>)
    requires Decode(s).clean && t <= s && |t| < |s| - |Decode(s).rest|
    ensures !Decode(t).clean && Decode(t).payload <= Decode(s).payload
    decreases |s|, 1
  {
    if LF in t {
      var x := s[|t|..];
      assert s == t + x;
      LineExtends(t, x);
      var (n, u) := SizeLine(s).value;
      assert SizeLine(t) == Some((n, Line(t).1)) && u == Line(t).1 + x;
      TruncatedInChunk(n, n == 0, u, Line(t).1);
    } else {
      match SizeLine(t)
      case None =>
      case Some((n, u)) => assert u == [] && !InChunk(n, n == 0, []).clean;
    }
  }

  lemma {:induction false} TruncatedInChunk(left: nat, last: bool, u: seq<byte>, t: seq<byte>)
    requires InChunk(left, last, u).clean && t <= u && |t| < |u| - |InChunk(left, last, u).rest|
    ensures !InChunk(left, last, t).clean && InChunk(left, last, t).payload <= InChunk(left, last, u).payload
    decreases |u|, 0
  {
    if |t| >= left {
      assert t[..left] == u[..left];
      if |t| >= left + 2 {
        assert EndsLine(t, left);
        assert !last && t[left + 2..] <= u[left + 2..];
        TruncationIsNotClean(u[left + 2..], t[left + 2..]);
      }
    } else {
      assert t == u[..|t|] <= u[..left];
    }
  }
}
