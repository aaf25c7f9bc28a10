/**
 * How readHeader decides where a response body ends (RFC 9112, section 6.3). The parsed header
 * fields are the input; the textproto parser that produces them is not part of this model.
 */
module Framing {
  import opened Wrappers
  import opened ListWalk

  datatype Request = Request(verb: string, connection: string)

  /** The fields of a response that framing looks at; `connection` is the first Connection value. */
  datatype Head = Head(proto: string, status: nat, contentLengths: seq<string>, transferEncodings: seq<string>,
                       connection: string)

  // ----- decimal values

  predicate IsDecimal(s: string) {
    s != "" && forall i :: 0 <= i < |s| ==> '0' <= s[i] <= '9'
  }

  function DecimalValue(s: string): nat
    requires forall i :: 0 <= i < |s| ==> '0' <= s[i] <= '9'
  {
    if s == "" then 0 else DecimalValue(s[..|s| - 1]) * 10 + (s[|s| - 1] - '0') as nat
  }

  const LENGTH_LIMIT := 0x8000_0000_0000_0000  // 2^63

  /** strconv.ParseUint(s, 10, 63) */
  function ParseLength(s: string): Option<nat> {
    if IsDecimal(s) && DecimalValue(s) < LENGTH_LIMIT then Some(DecimalValue(s)) else None
  }

  // What these mean, told from the ten digits alone.

  const DIGITS := "0123456789"

  /** `s` writes `n` in base ten, leading zeros allowed; the empty string writes zero. */
  predicate Writes(s: string, n: nat) {
    if s == "" then n == 0 else s[|s| - 1] == DIGITS[n % 10] && Writes(s[..|s| - 1], n / 10)
  }

  lemma DigitsInOrder(c: char, d: nat)
    requires d < 10
    ensures c == DIGITS[d] <==> '0' <= c <= '9' && (c - '0') as nat == d
  {
  }

  lemma {:induction false} WritesExactly(s: string, n: nat)
    ensures Writes(s, n) <==> (forall i :: 0 <= i < |s| ==> '0' <= s[i] <= '9') && DecimalValue(s) == n
  {
    if s != "" {
      var (init, c) := (s[..|s| - 1], s[|s| - 1]);
      WritesExactly(init, n / 10);
      DigitsInOrder(c, n % 10);
      assert (forall i :: 0 <= i < |s| ==> '0' <= s[i] <= '9') <==>
             (forall i :: 0 <= i < |init| ==> '0' <= init[i] <= '9') && '0' <= c <= '9';
    }
  }

  /** A length is accepted exactly if it is written in decimal digits, at least one, and below 2^63. */
  lemma ParsesExactly(s: string, n: nat)
    ensures ParseLength(s) == Some(n) <==> s != "" && Writes(s, n) && n < 0x8000_0000_0000_0000
  {
    WritesExactly(s, n);
  }

  /** `%d` */
  function DecimalPrint(n: nat): (s: string)
    ensures s != ""
  {
    if n < 10 then [DIGITS[n]] else DecimalPrint(n / 10) + [DIGITS[n % 10]]
  }

  lemma {:induction false} PrintWrites(n: nat)
    ensures Writes(DecimalPrint(n), n)
  {
    if n >= 10 {
      PrintWrites(n / 10);
      assert DecimalPrint(n)[..|DecimalPrint(n)| - 1] == DecimalPrint(n / 10);
    } else {
      assert [DIGITS[n]][..0] == "";
    }
  }

  /** Parsing a printed length gives it back, exactly if it is below 2^63. */
  lemma DecimalRoundTrip(n: nat)
    ensures ParseLength(DecimalPrint(n)) == if n < 0x8000_0000_0000_0000 then Some(n) else None
  {
    PrintWrites(n);
    WritesExactly(DecimalPrint(n), n);
  }

  /** Every element of every Content-Length line is the same decimal below 2^63. */
  ghost predicate AllSay(lines: seq<string>, d: string) {
    && ParseLength(d).Some?
    && forall i, j :: 0 <= i < |lines| && 0 <= j < |Elements(lines[i])| ==> Elements(lines[i])[j] == d
  }

  predicate AllEqual(es: seq<string>, d: string) {
    forall j :: 0 <= j < |es| ==> es[j] == d
  }

  lemma {:induction false} AllEqualReversed(es: seq<string>, d: string)
    ensures AllEqual(Reverse(es), d) <==> AllEqual(es, d)
  {
    if es != [] {
      var (init, last) := (es[..|es| - 1], es[|es| - 1]);
      AllEqualReversed(init, d);
      assert es == init + [last];
      assert Reverse(es) == [last] + Reverse(init);
      assert Reverse(es)[0] == last && forall j :: 0 <= j < |Reverse(init)| ==> Reverse(es)[j + 1] == Reverse(init)[j];
    }
  }

  lemma {:induction false} WalkedAll(es: seq<string>)
    ensures Walked(es, _ => true) == es
  {
    if es != [] {
      WalkedAll(es[1..]);
      assert es == [es[0]] + es[1..];
    }
  }

  /** The walk over one line: accepted if no element is empty and every one is `first`. */
  method LineSays(line: string, first: string) returns (ok: bool)
    ensures ok <==> first != "" && AllEqual(Elements(line), first)
  {
    var last, calls := WalkReverse(line, Fn(_ => true));
    ghost var es := Elements(line);
    WalkedAll(Reverse(es));
    AllEqualReversed(es, first);
    ok := true;
    var i := 0;
    while i < |calls|
      invariant 0 <= i <= |calls|
      invariant ok <==> forall j :: 0 <= j < i ==> calls[j] != "" && calls[j] == first
    {
      if calls[i] == "" {
        ok := false;
      } else if first != calls[i] {
        ok := false;
      }
      i := i + 1;
    }
    assert calls != [] by { ReverseLength(es); }
  }

  lemma {:induction false} ReverseLength(es: seq<string>)
    ensures |Reverse(es)| == |es|
  {
    if es != [] {
      ReverseLength(es[..|es| - 1]);
    }
  }

  lemma AllSayIt(lines: seq<string>, d: string)
    requires lines != []
    ensures AllSay(lines, d) ==>
              Last(Elements(lines[0])) == d && forall k :: 0 <= k < |lines| ==> AllEqual(Elements(lines[k]), d)
  {
  }

  function Last(es: seq<string>): string
    requires es != []
  {
    es[|es| - 1]
  }

  /** The length on which all elements of all lines agree. */
  ghost function Agreed(lines: seq<string>): Option<nat>
    requires lines != []
  {
    var d := Last(Elements(lines[0]));
    if AllSay(lines, d) then ParseLength(d) else None
  }

  /** The Content-Length lines give a length exactly when they all say the same valid one. */
  method ReadContentLength(lines: seq<string>) returns (n: Option<nat>)
    requires lines != []
    ensures n.Some? ==> exists d :: AllSay(lines, d) && ParseLength(d) == n
    ensures n.None? ==> forall d :: !AllSay(lines, d)
    ensures n == Agreed(lines)
  {
    var first, _ := WalkReverse(lines[0], Nil);
    var ok := true;
    var i := 0;
    while i < |lines|
      invariant 0 <= i <= |lines|
      invariant ok <==> forall k :: 0 <= k < i ==> first != "" && AllEqual(Elements(lines[k]), first)
    {
      var say := LineSays(lines[i], first);
      ok := ok && say;
      i := i + 1;
    }
    n := if ok then ParseLength(first) else None;
    if n.Some? {
      assert AllSay(lines, first) by {
        assert forall k :: 0 <= k < |lines| ==> AllEqual(Elements(lines[k]), first);
      }
    } else {
      forall d ensures !AllSay(lines, d) {
        AllSayIt(lines, d);
      }
    }
  }

  // ----- transfer codings

  /** textproto.TrimString */
  function TrimString(s: string): string
    decreases |s|
  {
    if s != "" && IsSpace(s[0]) then TrimString(s[1..])
    else if s != "" && IsSpace(s[|s| - 1]) then TrimString(s[..|s| - 1])
    else s
  }

  predicate IsSpace(c: char) { c == ' ' || c == '\t' || c == '\n' || c == '\r' }

  /** The field lines combined into one, as RFC 9110, section 5.3, allows. */
  function Combined(lines: seq<string>): string
    requires lines != []
  {
    if |lines| == 1 then TrimString(lines[0])
    else Combined(lines[..|lines| - 1]) + ", " + TrimString(lines[|lines| - 1])
  }

  /** The codings the lines list, in order. */
  function Codings(lines: seq<string>): seq<string> {
    if lines == [] then [] else Codings(lines[..|lines| - 1]) + Elements(TrimString(lines[|lines| - 1]))
  }

  /** Putting text in front changes only what is before the last comma. */
  lemma SplitWithFront(x: string, b: string)
    requires ',' in b
    ensures Split(x + b) == Split(x + b[..LastComma(b)]) + [b[LastComma(b) + 1..]]
  {
    var (p, q) := (b[..LastComma(b)], b[LastComma(b) + 1..]);
    assert x + b == (x + p) + "," + q;
    SplitPieces(x + p, q);
  }

  lemma {:induction false} SplitConcat(a: string, b: string)
    ensures Split(a + "," + b) == Split(a) + Split(b)
    decreases |b|
  {
    if ',' in b {
      var (p, q) := (b[..LastComma(b)], b[LastComma(b) + 1..]);
      SplitWithFront(a + ",", b);
      SplitConcat(a, p);
      assert Split(b) == Split(p) + [q];
      assert (Split(a) + Split(p)) + [q] == Split(a) + (Split(p) + [q]);
    } else {
      SplitPieces(a, b);
    }
  }

  /** White space in front of a value goes to its first element, and white space behind it to the last. */
  lemma {:induction false} SplitAfterSpace(c: char, b: string)
    requires IsOws(c)
    ensures Split([c] + b) == [[c] + Split(b)[0]] + Split(b)[1..]
    decreases |b|
  {
    if ',' in b {
      var (p, q) := (b[..LastComma(b)], b[LastComma(b) + 1..]);
      SplitWithFront([c], b);
      SplitAfterSpace(c, p);
      assert Split(b) == Split(p) + [q];
    } else {
      SplitNone(b);
      SplitNone([c] + b);
    }
  }

  lemma SplitNone(s: string)
    requires ',' !in s
    ensures Split(s) == [s]
  {
  }

  lemma SplitBeforeSpace(b: string, c: char)
    requires IsOws(c)
    ensures var n := |Split(b)| - 1; Split(b + [c]) == Split(b)[..n] + [Split(b)[n] + [c]]
  {
    if ',' in b {
      var (p, q) := (b[..LastComma(b)], b[LastComma(b) + 1..]);
      assert b + [c] == p + "," + (q + [c]) by {
        assert b == p + "," + q;
      }
      SplitPieces(p, q + [c]);
      SplitPieces(p, q);
      assert b == p + "," + q;
    } else {
      SplitNone(b);
      SplitNone(b + [c]);
    }
  }

  lemma {:induction false} TrimBackAfterSpace(c: char, e: string)
    requires IsOws(c)
    ensures Trimmed([c] + e) == Trimmed(e)
    decreases |e|
  {
    var s := [c] + e;
    if e == "" {
      assert s[..0] == "";
    } else if IsOws(e[|e| - 1]) {
      assert s[..|s| - 1] == [c] + e[..|e| - 1];
      TrimBackAfterSpace(c, e[..|e| - 1]);
    } else {
      assert TrimBack(s) == s && s[1..] == e;
    }
  }

  lemma TrimAllConcat(p: seq<string>, q: seq<string>)
    ensures TrimAll(p + q) == TrimAll(p) + TrimAll(q)
  {
  }

  lemma ElementsAfterSpace(c: char, b: string)
    requires IsOws(c)
    ensures Elements([c] + b) == Elements(b)
  {
    SplitAfterSpace(c, b);
    TrimBackAfterSpace(c, Split(b)[0]);
  }

  lemma ElementsBeforeSpace(b: string, c: char)
    requires IsOws(c)
    ensures Elements(b + [c]) == Elements(b)
  {
    SplitBeforeSpace(b, c);
    var n := |Split(b)| - 1;
    var e := Split(b)[n];
    assert Trimmed(e + [c]) == Trimmed(e) by {
      assert (e + [c])[..|e|] == e;
    }
    forall i | 0 <= i <= n ensures Elements(b + [c])[i] == Elements(b)[i] {
      assert i < n ==> Split(b + [c])[i] == Split(b)[i];
    }
  }

  /** Without control characters, trimming a value does not change its elements. */
  lemma {:induction false} ElementsTrimmed(s: string)
    requires Plain(s)
    ensures Elements(TrimString(s)) == Elements(s)
    decreases |s|
  {
    if s != "" && IsSpace(s[0]) {
      assert s == [s[0]] + s[1..];
      ElementsAfterSpace(s[0], s[1..]);
      ElementsTrimmed(s[1..]);
    } else if s != "" && IsSpace(s[|s| - 1]) {
      assert s == s[..|s| - 1] + [s[|s| - 1]];
      ElementsBeforeSpace(s[..|s| - 1], s[|s| - 1]);
      ElementsTrimmed(s[..|s| - 1]);
    }
  }

  lemma ElementsOfPair(a: string, b: string)
    ensures Elements(a + ", " + b) == Elements(a) + Elements(b)
  {
    assert a + ", " + b == a + "," + (" " + b);
    SplitConcat(a, " " + b);
    TrimAllConcat(Split(a), Split(" " + b));
    ElementsAfterSpace(' ', b);
  }

  /** Combining the lines keeps the list: its elements are those of all lines, in order. */
  lemma {:induction false} CombinedListsAll(lines: seq<string>)
    requires lines != []
    ensures Elements(Combined(lines)) == Codings(lines)
  {
    if |lines| == 1 {
      assert Codings(lines[..0]) == [];
    } else {
      CombinedListsAll(lines[..|lines| - 1]);
      ElementsOfPair(Combined(lines[..|lines| - 1]), TrimString(lines[|lines| - 1]));
    }
  }

  // ----- the rules of RFC 9112

  /** Where a body ends. */
  datatype Body = Known(length: nat) | Chunked | UntilClose | Invalid

  /** Empty list elements are ignored (RFC 9110, section 5.6.1). */
  function NonEmpty(es: seq<string>): seq<string> {
    if es == [] then [] else NonEmpty(es[..|es| - 1]) + if Last(es) == "" then [] else [Last(es)]
  }

  /** The list that several field lines make up (RFC 9110, sections 5.3 and 5.6.1). */
  function RfcList(lines: seq<string>): seq<string> {
    if lines == [] then [] else RfcList(lines[..|lines| - 1]) + NonEmpty(OwsElements(lines[|lines| - 1]))
  }

  function Lower(s: string): string {
    seq(|s|, i requires 0 <= i < |s| => if 'A' <= s[i] <= 'Z' then s[i] - 'A' + 'a' else s[i])
  }

  /** Names of codings are compared without regard to case (RFC 9112, section 7); chunked takes no parameters. */
  predicate FinallyChunked(codings: seq<string>) {
    codings != [] && Lower(Last(codings)) == "chunked"
  }

  /** A list of the same decimal value (RFC 9112, section 6.3, item 5, and RFC 9110, section 8.6). */
  function RfcLength(values: seq<string>): Option<nat> {
    if values != [] && IsDecimal(values[0])
       && forall i :: 0 <= i < |values| ==> IsDecimal(values[i]) && DecimalValue(values[i]) == DecimalValue(values[0])
    then Some(DecimalValue(values[0])) else None
  }

  /** Item 1: no body, whatever the fields say. */
  predicate BodyForbidden(req: Request, status: nat) {
    req.verb == "HEAD" || 100 <= status <= 199 || status in {204, 304}
  }

  /** Item 2: the connection becomes a tunnel. */
  predicate Tunnels(req: Request, status: nat) {
    req.verb == "CONNECT" && 200 <= status <= 299
  }

  /** What RFC 9112, section 6.3, says of a response, its items in their order of precedence. */
  function RfcBody(req: Request, head: Head): Body {
    if BodyForbidden(req, head.status) then Known(0)
    else if Tunnels(req, head.status) then UntilClose
    else if head.transferEncodings != [] then
      (if FinallyChunked(RfcList(head.transferEncodings)) then Chunked else UntilClose)
    else if head.contentLengths != [] then
      (match RfcLength(RfcList(head.contentLengths)) case Some(n) => Known(n) case None => Invalid)
    else UntilClose
  }

  // ----- the decision of the source

  /** `a | b`, bit by bit. */
  function Or(a: nat, b: nat): nat {
    if a == 0 then b else 2 * Or(a / 2, b / 2) + if a % 2 == 1 || b % 2 == 1 then 1 else 0
  }

  /** The version number as the source packs it; 1.0 gives 16. */
  function PackedVersion(proto: string): nat
    requires |proto| == 8
  {
    Or((proto[5] as int - 48) % 256 * 16, (proto[7] as int - 48) % 256)
  }

  predicate WellFormedProto(proto: string) {
    |proto| == 8 && proto[..5] == "HTTP/" && proto[6] == '.'
  }

  /** The combined Transfer-Encoding, dropped for versions the source takes to be before 1.0. */
  function TransferEncoding(head: Head): string
    requires WellFormedProto(head.proto)
  {
    if head.transferEncodings == [] || PackedVersion(head.proto) < 11 then "" else Combined(head.transferEncodings)
  }

  /** The Content-Length lines, if there are any, agree. */
  ghost predicate LengthsAgree(head: Head) {
    head.contentLengths == [] || Agreed(head.contentLengths).Some?
  }

  /** The length they agree on, -1 for none. */
  ghost function DeclaredLength(head: Head): int
    requires LengthsAgree(head)
  {
    if head.contentLengths == [] then -1 else Agreed(head.contentLengths).value
  }

  /** The last coding, to the source. */
  function CodedBody(te: string): Body {
    if Last(Elements(te)) == "chunked" then Chunked else UntilClose
  }

  /** The body of a response with the codings `te` and that declared length. */
  function BodyOf(req: Request, status: nat, te: string, length: int): Body {
    if req.verb == "CONNECT" && status / 100 == 2 then UntilClose
    else if te != "" then CodedBody(te)
    else if req.verb == "HEAD" || status / 100 == 1 || status == 204 || status == 304 then Known(0)
    else if length < 0 then UntilClose
    else Known(length)
  }

  /** What readHeader decides. */
  ghost function Decided(req: Request, head: Head): Body
    requires WellFormedProto(head.proto)
  {
    if !LengthsAgree(head) then Invalid
    else BodyOf(req, head.status, TransferEncoding(head), DeclaredLength(head))
  }

  datatype Framed = Malformed | Framed(close: bool, contentLength: int, transferEncoding: string)
  {
    /** What the session will read. */
    function Meaning(): Body
      requires Framed?
    {
      if transferEncoding != "" then CodedBody(transferEncoding)
      else if contentLength >= 0 then Known(contentLength) else UntilClose
    }
  }

  /** The lines joined with commas, unless the version has no Transfer-Encoding. */
  method ReadTransferEncoding(head: Head) returns (te: string)
    requires WellFormedProto(head.proto)
    ensures te == TransferEncoding(head)
    ensures te != "" ==> Elements(te) == Codings(head.transferEncodings)
  {
    te := "";
    if |head.transferEncodings| > 0 {
      te := Combined(head.transferEncodings);
      CombinedListsAll(head.transferEncodings);
      if PackedVersion(head.proto) < 11 {
        te := "";
      }
    }
  }

  /**
   * The framing part of readHeader. It fails exactly on a malformed version or contradictory
   * lengths. It keeps the connection exactly when the body is self-delimiting and neither side
   * asked to close: a known length and no coding, or a coding list ending in `chunked` and length
   * -1.
   */
  method ReadHeader(req: Request, head: Head) returns (r: Framed)
    ensures r.Malformed? <==> !WellFormedProto(head.proto) || Decided(req, head).Invalid?
    ensures r.Framed? ==> r.Meaning() == Decided(req, head)
    ensures r.Framed? ==> r.contentLength >= -1 && (r.transferEncoding != "" ==> r.contentLength == -1)
    ensures r.Framed? ==> (!r.close <==>
              !r.Meaning().UntilClose? && head.connection != "close" && req.connection != "close")
    ensures r.Framed? && r.transferEncoding != "" ==>
              && r.transferEncoding == TransferEncoding(head)
              && Elements(r.transferEncoding) == Codings(head.transferEncodings)
  {
    if !WellFormedProto(head.proto) {
      return Malformed;
    }
    var contentLength: int := -1;
    if |head.contentLengths| > 0 {
      var n := ReadContentLength(head.contentLengths);
      if n.None? {
        return Malformed;
      }
      contentLength := n.value;
    }
    var transferEncoding := ReadTransferEncoding(head);
    r := Delimit(req, head.status, contentLength, transferEncoding);
    if head.connection == "close" || req.connection == "close" {
      r := r.(close := true);
    }
  }

  /** The rules applied to the combined fields. */
  method Delimit(req: Request, status: nat, length: int, te: string) returns (r: Framed)
    requires length >= -1
    ensures r.Framed? && r.Meaning() == BodyOf(req, status, te, length) && (r.close <==> r.Meaning().UntilClose?)
    ensures r.contentLength >= -1 && (r.transferEncoding != "" ==> r.transferEncoding == te && r.contentLength == -1)
  {
    var contentLength, transferEncoding := length, te;
    if req.verb == "HEAD" || status / 100 == 1 || status == 204 || status == 304 {
      contentLength := 0;
    }
    if req.verb == "CONNECT" && status >= 200 && status < 300 {
      transferEncoding := "";
      contentLength := -1;
    }
    var close := false;
    if transferEncoding != "" {
      contentLength := -1;
      var last, _ := WalkReverse(transferEncoding, Nil);
      if last != "chunked" {
        close := true;
      }
    } else if contentLength == -1 {
      close := true;
    }
    r := Framed(close, contentLength, transferEncoding);
  }

  lemma {:induction false} OrNothing(a: nat)
    ensures Or(a, 0) == a
  {
    if a > 0 {
      OrNothing(a / 2);
    }
  }

  lemma OrDoubled(a: nat, b: nat)
    ensures Or(2 * a, b) == 2 * Or(a, b / 2) + b % 2
  {
    assert 2 * a / 2 == a && 2 * a % 2 == 0;
  }

  lemma OrQuadrupled(a: nat, b: nat)
    ensures Or(4 * a, b) == 4 * Or(a, b / 4) + b % 4
  {
    OrDoubled(2 * a, b);
    OrDoubled(a, b / 2);
    assert b / 2 / 2 == b / 4;
  }

  lemma OrIsSum(a: nat, b: nat)
    requires b < 16
    ensures Or(16 * a, b) == 16 * a + b
  {
    OrQuadrupled(4 * a, b);
    OrQuadrupled(a, b / 4);
    OrNothing(a);
  }

  lemma DigitByte(c: char, d: nat)
    requires d < 10 && c == DIGITS[d]
    ensures (c as int - 48) % 256 == d
  {
    DigitsInOrder(c, d);
  }

  lemma PackedIs(proto: string, major: nat, minor: nat)
    requires |proto| == 8 && (proto[5] as int - 48) % 256 == major && (proto[7] as int - 48) % 256 == minor < 16
    ensures PackedVersion(proto) == 16 * major + minor
  {
    OrIsSum(major, minor);
    assert major * 16 == 16 * major;
  }

  lemma PackedDigits(proto: string, major: nat, minor: nat)
    requires major < 10 && minor < 10
    requires proto == "HTTP/" + [DIGITS[major]] + "." + [DIGITS[minor]]
    ensures WellFormedProto(proto) && PackedVersion(proto) == 16 * major + minor
  {
    DigitByte(proto[5], major);
    DigitByte(proto[7], minor);
    PackedIs(proto, major, minor);
  }

  /** Codings count in every version but 0.x: in 1.0 too, whose packed number 16 is not below 11. */
  lemma VersionsWithCodings(head: Head, major: nat, minor: nat)
    requires major < 10 && minor < 10 && head.transferEncodings != []
    requires head.proto == "HTTP/" + [DIGITS[major]] + "." + [DIGITS[minor]]
    ensures WellFormedProto(head.proto)
    ensures TransferEncoding(head) == if major == 0 then "" else Combined(head.transferEncodings)
  {
    PackedDigits(head.proto, major, minor);
  }

  // ----- where the two agree

  /** Field values that the grammar of RFC 9110, section 5.5, allows: no control characters but tabs. */
  predicate LegalFields(head: Head) {
    && (forall i :: 0 <= i < |head.contentLengths| ==> Plain(head.contentLengths[i]))
    && (forall i :: 0 <= i < |head.transferEncodings| ==> Plain(head.transferEncodings[i]))
  }

  /** The last element is `chunked`, not empty and in lower case; or the last coding is another one. */
  predicate PlainlyCoded(lines: seq<string>)
    requires lines != []
  {
    (Codings(lines) != [] && Last(Codings(lines)) == "chunked") || !FinallyChunked(RfcList(lines))
  }

  /** No element is empty, all are written alike, and a number is below 2^63. */
  predicate WrittenAlike(lines: seq<string>)
    requires lines != []
  {
    var d := Last(Elements(lines[0]));
    && d != "" && (IsDecimal(d) ==> DecimalValue(d) < LENGTH_LIMIT)
    && forall k :: 0 <= k < |lines| ==> AllEqual(Elements(lines[k]), d)
  }

  /**
   * The responses readHeader frames as the RFC says. It fails on contradictory lengths even where
   * they do not count. A response that must not have a body must not have a Transfer-Encoding
   * either, and not answer a CONNECT; an empty Transfer-Encoding, or one from a version it drops,
   * must not stand beside a length or hide `chunked`; any other must be plainly coded; and without
   * one, valid lengths must be written alike.
   */
  ghost predicate Conforms(req: Request, head: Head)
    requires WellFormedProto(head.proto)
  {
    var te := TransferEncoding(head);
    if BodyForbidden(req, head.status) then LengthsAgree(head) && te == "" && !Tunnels(req, head.status)
    else if Tunnels(req, head.status) then LengthsAgree(head)
    else if head.transferEncodings != [] then
      && LengthsAgree(head)
      && if te == "" then head.contentLengths == [] && !FinallyChunked(RfcList(head.transferEncodings))
         else PlainlyCoded(head.transferEncodings)
    else
      head.contentLengths != [] && RfcLength(RfcList(head.contentLengths)).Some? ==> WrittenAlike(head.contentLengths)
  }

  lemma NonEmptyAppend(es: seq<string>, e: string)
    ensures NonEmpty(es + [e]) == NonEmpty(es) + if e == "" then [] else [e]
  {
    assert (es + [e])[..|es|] == es;
  }

  lemma {:induction false} NonEmptyConcat(a: seq<string>, b: seq<string>)
    ensures NonEmpty(a + b) == NonEmpty(a) + NonEmpty(b)
  {
    if b == [] {
      assert a + b == a;
    } else {
      var (init, e) := (b[..|b| - 1], Last(b));
      NonEmptyConcat(a, init);
      NonEmptyAppend(a + init, e);
      assert a + b == (a + init) + [e];
    }
  }

  lemma {:induction false} RfcListOfCodings(lines: seq<string>)
    requires forall i :: 0 <= i < |lines| ==> Plain(lines[i])
    ensures RfcList(lines) == NonEmpty(Codings(lines))
  {
    if lines != [] {
      var (init, line) := (lines[..|lines| - 1], lines[|lines| - 1]);
      RfcListOfCodings(init);
      ElementsTrimmed(line);
      PlainElements(line);
      NonEmptyConcat(Codings(init), Elements(line));
    }
  }

  lemma LowerIsLower()
    ensures Lower("chunked") == "chunked"
  {
  }

  /** A list that ends in a literal `chunked` ends in the chunked coding. */
  lemma LiterallyChunked(lines: seq<string>)
    requires forall i :: 0 <= i < |lines| ==> Plain(lines[i])
    requires Codings(lines) != [] && Last(Codings(lines)) == "chunked"
    ensures FinallyChunked(RfcList(lines))
  {
    RfcListOfCodings(lines);
    LowerIsLower();
  }

  lemma {:induction false} NonEmptySame(es: seq<string>, d: string)
    requires AllEqual(es, d) && d != ""
    ensures NonEmpty(es) == es
  {
    if es != [] {
      NonEmptySame(es[..|es| - 1], d);
      assert es == es[..|es| - 1] + [Last(es)];
    }
  }

  lemma {:induction false} RfcListSame(lines: seq<string>, d: string)
    requires forall i :: 0 <= i < |lines| ==> Plain(lines[i]) && AllEqual(Elements(lines[i]), d)
    requires d != ""
    ensures AllEqual(RfcList(lines), d) && (lines != [] ==> RfcList(lines) != [])
  {
    if lines != [] {
      var (init, line) := (lines[..|lines| - 1], lines[|lines| - 1]);
      RfcListSame(init, d);
      PlainElements(line);
      NonEmptySame(Elements(line), d);
    }
  }

  lemma LengthOfSame(values: seq<string>, d: string)
    requires values != [] && AllEqual(values, d)
    ensures RfcLength(values) == if IsDecimal(d) then Some(DecimalValue(d)) else None
  {
    assert values[0] == d;
  }

  /** On valid lengths written alike, and on no others, both find the length, and the same one. */
  lemma LengthsExactly(lines: seq<string>)
    requires lines != [] && forall i :: 0 <= i < |lines| ==> Plain(lines[i])
    ensures Agreed(lines).Some? <==> WrittenAlike(lines) && RfcLength(RfcList(lines)).Some?
    ensures Agreed(lines).Some? ==> Agreed(lines) == RfcLength(RfcList(lines))
  {
    var d := Last(Elements(lines[0]));
    AgreedIs(lines);
    if d != "" && forall k :: 0 <= k < |lines| ==> AllEqual(Elements(lines[k]), d) {
      RfcListSame(lines, d);
      LengthOfSame(RfcList(lines), d);
    }
  }

  lemma AgreedIs(lines: seq<string>)
    requires lines != []
    ensures var d := Last(Elements(lines[0]));
            Agreed(lines) ==
            if forall k :: 0 <= k < |lines| ==> AllEqual(Elements(lines[k]), d) then ParseLength(d) else None
  {
  }

  /** On a list of codings both see the chunked coding at its end, or neither does, exactly if it is plainly coded. */
  lemma CodingsExactly(head: Head)
    requires WellFormedProto(head.proto) && LegalFields(head) && TransferEncoding(head) != ""
    ensures head.transferEncodings != []
    ensures PlainlyCoded(head.transferEncodings) <==>
            (Last(Elements(TransferEncoding(head))) == "chunked" <==> FinallyChunked(RfcList(head.transferEncodings)))
  {
    CombinedListsAll(head.transferEncodings);
    if Last(Codings(head.transferEncodings)) == "chunked" {
      LiterallyChunked(head.transferEncodings);
    }
  }

  lemma RfcLengthMatters(req: Request, head: Head)
    requires WellFormedProto(head.proto) && LegalFields(head)
    requires !BodyForbidden(req, head.status) && !Tunnels(req, head.status) && head.transferEncodings == []
    ensures Decided(req, head) == RfcBody(req, head) <==> Conforms(req, head)
  {
    if head.contentLengths != [] {
      LengthsExactly(head.contentLengths);
    }
  }

  /** readHeader frames a response as section 6.3 of RFC 9112 says if and only if it is one of these. */
  lemma FollowsRfcExactly(req: Request, head: Head)
    requires WellFormedProto(head.proto) && LegalFields(head)
    ensures Decided(req, head) == RfcBody(req, head) <==> Conforms(req, head)
  {
    if BodyForbidden(req, head.status) || Tunnels(req, head.status) {
    } else if head.transferEncodings == [] {
      RfcLengthMatters(req, head);
    } else if TransferEncoding(head) != "" {
      CodingsExactly(head);
    }
  }

  // ----- responses framed differently

  /** A value without commas and without white space at its ends. */
  predicate Bare(e: string) {
    e != "" && ',' !in e && e[0] > ' ' && e[|e| - 1] > ' '
  }

  lemma BareElements(e: string)
    requires Bare(e)
    ensures Elements(e) == OwsElements(e) == [e] && TrimString(e) == e
  {
    SplitNone(e);
  }

  lemma BareList(e: string)
    requires Bare(e)
    ensures Codings([e]) == RfcList([e]) == [e] && Combined([e]) == e
  {
    BareElements(e);
    assert [e][..0] == [];
    assert NonEmpty([e]) == [e];
  }

  lemma BareThenComma(e: string)
    requires Bare(e)
    ensures Elements(e + ",") == OwsElements(e + ",") == [e, ""] && RfcList([e + ","]) == [e]
    ensures Combined([e + ","]) == e + ","
  {
    SplitNone(e);
    SplitPieces(e, "");
    assert e + "," == e + "," + "";
    BareElements(e);
    assert [e, ""][..1] == [e] && [e][..0] == [];
    assert NonEmpty([e, ""]) == NonEmpty([e]) + [] == [e];
    assert [e + ","][..0] == [];
    assert RfcList([e + ","]) == RfcList([]) + NonEmpty(OwsElements(e + ","));
  }

  /** A response the rules on codings apply to, with one Transfer-Encoding line and no length. */
  predicate OneCoding(req: Request, head: Head, line: string) {
    && WellFormedProto(head.proto) && PackedVersion(head.proto) >= 11
    && !BodyForbidden(req, head.status) && !Tunnels(req, head.status)
    && head.contentLengths == [] && head.transferEncodings == [line]
  }

  /** In capitals, `chunked` is still the chunked coding; the source reads to the end of the connection. */
  lemma LetterCase(req: Request, head: Head, e: string)
    requires Bare(e) && Lower(e) == "chunked" && e != "chunked" && OneCoding(req, head, e)
    ensures Decided(req, head) == UntilClose && RfcBody(req, head) == Chunked
  {
    BareElements(e);
    BareList(e);
  }

  /** An empty element after `chunked` is to be ignored; the source takes it for the last coding. */
  lemma EmptyLastElement(req: Request, head: Head, e: string)
    requires Bare(e) && Lower(e) == "chunked" && OneCoding(req, head, e + ",")
    ensures Decided(req, head) == UntilClose && RfcBody(req, head) == Chunked
  {
    BareThenComma(e);
  }

  /** No body follows a 204 in answer to a CONNECT, nor the answer to a HEAD with a Transfer-Encoding. */
  lemma ForbiddenBody(req: Request, head: Head)
    requires WellFormedProto(head.proto) && BodyForbidden(req, head.status) && LengthsAgree(head)
    ensures RfcBody(req, head) == Known(0)
    ensures Tunnels(req, head.status) ==> Decided(req, head) == UntilClose
    ensures !Tunnels(req, head.status) && TransferEncoding(head) != "" ==>
              Decided(req, head) == CodedBody(TransferEncoding(head))
  {
  }

  /** A Transfer-Encoding overrides a Content-Length even if it lists nothing; to the source it is not there. */
  lemma EmptyTransferEncoding(req: Request, head: Head)
    requires WellFormedProto(head.proto) && !BodyForbidden(req, head.status) && !Tunnels(req, head.status)
    requires head.transferEncodings == [""] && head.contentLengths != [] && Agreed(head.contentLengths).Some?
    ensures Decided(req, head) == Known(Agreed(head.contentLengths).value) && RfcBody(req, head) == UntilClose
  {
    SplitNone("");
    assert OwsElements("") == [""] && [""][..0] == [];
    assert RfcList([""]) == [];
  }

  /** Contradictory lengths do not count where no body is allowed, in a tunnel, or beside a Transfer-Encoding. */
  lemma UselessLengths(req: Request, head: Head)
    requires WellFormedProto(head.proto) && !LengthsAgree(head)
    requires BodyForbidden(req, head.status) || Tunnels(req, head.status) || head.transferEncodings != []
    ensures Decided(req, head) == Invalid && RfcBody(req, head) != Invalid
  {
  }

  /** A valid length stays valid with an empty element beside it; the source refuses it. */
  lemma EmptyLengthElement(req: Request, head: Head, d: string)
    requires WellFormedProto(head.proto) && !BodyForbidden(req, head.status) && !Tunnels(req, head.status)
    requires IsDecimal(d) && head.contentLengths == [d + ","] && head.transferEncodings == []
    ensures Decided(req, head) == Invalid && RfcBody(req, head) == Known(DecimalValue(d))
  {
    BareThenComma(d);
  }

  /** The values these can be met with. */
  lemma Spellings()
    ensures Bare("Chunked") && Lower("Chunked") == "chunked" && Bare("chunked") && Lower("chunked") == "chunked"
    ensures PackedVersion("HTTP/1.1") == 17 && WellFormedProto("HTTP/1.1")
  {
    PackedDigits("HTTP/1.1", 1, 1);
  }

  const GET := Request("GET", "")

  lemma CapitalChunked(head: Head)
    requires head == Head("HTTP/1.1", 200, [], ["Chunked"], "")
    ensures Decided(GET, head) == UntilClose && RfcBody(GET, head) == Chunked
  {
    Spellings();
    LetterCase(GET, head, "Chunked");
  }

  lemma ChunkedThenComma(head: Head)
    requires head == Head("HTTP/1.1", 200, [], ["chunked" + ","], "")
    ensures Decided(GET, head) == UntilClose && RfcBody(GET, head) == Chunked
  {
    Spellings();
    EmptyLastElement(GET, head, "chunked");
  }

  lemma NoContentForConnect(req: Request, head: Head)
    requires req == Request("CONNECT", "") && head == Head("HTTP/1.1", 204, [], [], "")
    ensures Decided(req, head) == UntilClose && RfcBody(req, head) == Known(0)
  {
    Spellings();
    ForbiddenBody(req, head);
  }

  lemma ChunkedForHead(req: Request, head: Head)
    requires req == Request("HEAD", "") && head == Head("HTTP/1.1", 200, [], ["chunked"], "")
    ensures Decided(req, head) == Chunked && RfcBody(req, head) == Known(0)
  {
    Spellings();
    BareList("chunked");
    BareElements("chunked");
    ForbiddenBody(req, head);
  }

  /** The coding `chunked`, as it is usually written, is framed as the RFC says. */
  lemma PlainlyChunked(req: Request, head: Head, e: string)
    requires OneCoding(req, head, e) && Bare(e) && e == "chunked" == Lower(e)
    ensures Conforms(req, head) && RfcBody(req, head) == Chunked && Codings(head.transferEncodings) == ["chunked"]
  {
    BareList(e);
    BareElements(e);
  }

  lemma PrintedLength(n: nat)
    ensures Bare(DecimalPrint(n)) && Elements(DecimalPrint(n)) == [DecimalPrint(n)]
    ensures Agreed([DecimalPrint(n)]) == ParseLength(DecimalPrint(n))
  {
    var d := DecimalPrint(n);
    PrintWrites(n);
    WritesExactly(d, n);
    assert forall i :: 0 <= i < |d| ==> d[i] != ',';
    BareElements(d);
  }

  /** An ordinary response with one length, in decimal, and no coding: that many bytes, from 2^63 on none at all. */
  method FrameByLength(req: Request, head: Head, n: nat) returns (r: Framed)
    requires WellFormedProto(head.proto) && req.verb != "HEAD" && req.verb != "CONNECT"
    requires head.status >= 200 && head.status != 204 && head.status != 304
    requires head.contentLengths == [DecimalPrint(n)] && head.transferEncodings == []
    ensures if n < 0x8000_0000_0000_0000
            then r == Framed(head.connection == "close" || req.connection == "close", n, "")
            else r == Malformed
  {
    PrintedLength(n);
    DecimalRoundTrip(n);
    r := ReadHeader(req, head);
  }
}
