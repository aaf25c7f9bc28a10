/**
 * walkReverse: the elements of a comma-separated header value, last first (RFC 9110, section
 * 5.6.1), proved against splitting at commas and trimming every element.
 */
module ListWalk {

  predicate IsOws(c: char) { c == ' ' || c == '\t' }

  // ----- the specification

  function Trimmed(e: string): string {
    TrimFront(TrimBack(e))
  }

  function TrimBack(e: string): string {
    if e != "" && IsOws(e[|e| - 1]) then TrimBack(e[..|e| - 1]) else e
  }

  /** Bytes up to the first one above the space are dropped, control characters included. */
  function TrimFront(e: string): string {
    if e != "" && e[0] <= ' ' then TrimFront(e[1..]) else e
  }

  function Split(s: string): (parts: seq<string>)
    ensures parts != []
  {
    if ',' !in s then [s]
    else
      var i := LastComma(s);
      Split(s[..i]) + [s[i + 1..]]
  }

  function LastComma(s: string): (i: nat)
    requires ',' in s
    ensures i < |s| && s[i] == ',' && ',' !in s[i + 1..]
  {
    if s[|s| - 1] == ',' then |s| - 1 else LastComma(s[..|s| - 1])
  }

  function Elements(s: string): (es: seq<string>)
    ensures |es| == |Split(s)|
  {
    TrimAll(Split(s))
  }

  function TrimAll(parts: seq<string>): (es: seq<string>)
    ensures |es| == |parts| && forall i :: 0 <= i < |parts| ==> es[i] == Trimmed(parts[i])
  {
    seq(|parts|, i requires 0 <= i < |parts| => Trimmed(parts[i]))
  }

  function Reverse(es: seq<string>): seq<string> {
    if es == [] then [] else [es[|es| - 1]] + Reverse(es[..|es| - 1])
  }

  /** The calls made on `es` when the callback stops the walk at its first false. */
  function Walked(es: seq<string>, fn: string -> bool): seq<string> {
    if es == [] then [] else if !fn(es[0]) then [es[0]] else [es[0]] + Walked(es[1..], fn)
  }

  // ----- the walk

  datatype Callback = Nil | Fn(call: string -> bool)

  lemma {:induction false} TrimFrontIs(x: string, k: nat)
    requires k <= |x| && (forall j :: 0 <= j < k ==> x[j] <= ' ') && (k < |x| ==> x[k] > ' ')
    ensures TrimFront(x) == x[k..]
  {
    if k > 0 {
      TrimFrontIs(x[1..], k - 1);
    }
  }

  /** Trailing white space may be cut before trimming. */
  lemma {:induction false} TrimmedBackwards(e: string, m: nat)
    requires m <= |e| && forall j :: m <= j < |e| ==> IsOws(e[j])
    ensures TrimBack(e) == TrimBack(e[..m])
    decreases |e|
  {
    if m < |e| {
      assert e[..|e| - 1][..m] == e[..m];
      TrimmedBackwards(e[..|e| - 1], m);
    } else {
      assert e[..m] == e;
    }
  }

  /** The first inner loop: white space at the end of `s[..n]`, except that it stops at index 0. */
  method SkipBlank(s: string, n: nat) returns (end: nat)
    requires n <= |s|
    ensures end <= n && (n > 0 ==> end > 0) && forall j :: end <= j < n ==> IsOws(s[j])
    ensures end > 1 ==> !IsOws(s[end - 1])
  {
    var i := n - 1;
    while i > 0 && (s[i] == ' ' || s[i] == '\t') && s[i] != ','
      invariant -1 <= i < n && (n > 0 ==> i >= 0) && forall j :: i < j < n ==> IsOws(s[j])
    {
      i := i - 1;
    }
    end := i + 1;
  }

  /** The second one: back to the comma, remembering the first character above a space. */
  method ScanBack(s: string, end: nat) returns (start: nat, comma: int)
    requires end <= |s|
    ensures -1 <= comma < start <= end && (comma >= 0 ==> s[comma] == ',')
    ensures forall j :: comma < j < end ==> s[j] != ','
    ensures forall j :: comma < j < start ==> s[j] <= ' '
    ensures start < end ==> s[start] > ' '
  {
    start := end;
    var i := end - 1;
    while i >= 0 && s[i] != ','
      invariant -1 <= i < start <= end
      invariant forall j :: i < j < end ==> s[j] != ','
      invariant forall j :: i < j < start ==> s[j] <= ' '
      invariant start < end ==> s[start] > ' '
      decreases i + 1
    {
      if s[i] > ' ' {
        start := i;
      }
      i := i - 1;
    }
    comma := i;
  }

  /** `comma` is the last one in `s[..n]`, or -1. */
  predicate LastBefore(s: string, n: nat, comma: int)
    requires n <= |s|
  {
    -1 <= comma < n && (comma >= 0 ==> s[comma] == ',') && forall j :: comma < j < n ==> s[j] != ','
  }

  /** The walk's token is the trimmed element: white space follows it, and nothing above a space precedes it. */
  lemma TokenIsTrimmed(s: string, n: nat, comma: int, start: nat, end: nat)
    requires -1 <= comma < start <= end <= n <= |s|
    requires forall j :: end <= j < n ==> IsOws(s[j])
    requires (forall j :: comma < j < start ==> s[j] <= ' ') && (start < end ==> s[start] > ' ')
    requires comma + 1 < end && IsOws(s[end - 1]) ==> start == end
    ensures s[start..end] == Trimmed(s[comma + 1..n])
  {
    var (e, f) := (s[comma + 1..n], s[comma + 1..end]);
    assert e[..|f|] == f;
    TrimmedBackwards(e, |f|);
    TrimBackIsPrefix(f);
    if start == end {
      TrimFrontIs(TrimBack(f), |TrimBack(f)|);
    } else {
      TrimFrontIs(f, start - comma - 1);
    }
  }

  lemma {:induction false} TrimBackIsPrefix(e: string)
    ensures TrimBack(e) <= e
  {
    if e != "" && IsOws(e[|e| - 1]) {
      TrimBackIsPrefix(e[..|e| - 1]);
    }
  }

  lemma LastCommaIs(s: string, i: nat)
    requires i < |s| && LastBefore(s, |s|, i)
    ensures LastComma(s) == i
  {
    var j := LastComma(s);
    assert forall k :: j < k < |s| ==> s[k] == s[j + 1..][k - j - 1];
  }

  lemma {:induction false} ReverseAppend(es: seq<string>, e: string)
    ensures Reverse(es + [e]) == [e] + Reverse(es)
  {
    assert (es + [e])[..|es|] == es;
  }

  /** The elements of `s[..n]`, last first; none for -1, where no comma is left. */
  function FromEnd(s: string, n: int): seq<string>
    requires -1 <= n <= |s|
  {
    if n == -1 then [] else Reverse(Elements(s[..n]))
  }

  lemma SplitAtLast(r: string, comma: int)
    requires LastBefore(r, |r|, comma)
    ensures Split(r) == (if comma < 0 then [] else Split(r[..comma])) + [r[comma + 1..]]
  {
    if comma >= 0 {
      LastCommaIs(r, comma);
    }
  }

  lemma SplitPieces(p: string, q: string)
    requires ',' !in q
    ensures Split(p + "," + q) == Split(p) + [q]
  {
    var r := p + "," + q;
    assert forall k :: |p| < k < |r| ==> r[k] == q[k - |p| - 1];
    LastCommaIs(r, |p|);
    assert r[..|p|] == p && r[|p| + 1..] == q;
  }

  lemma TrimAllAppend(parts: seq<string>, e: string)
    ensures TrimAll(parts + [e]) == TrimAll(parts) + [Trimmed(e)]
  {
  }

  /** They are the last one, then those before the last comma. */
  lemma LastElement(s: string, n: nat, comma: int)
    requires n <= |s| && LastBefore(s, n, comma)
    ensures FromEnd(s, n) == [Trimmed(s[comma + 1..n])] + FromEnd(s, comma)
  {
    var (r, e) := (s[..n], s[comma + 1..n]);
    assert LastBefore(r, |r|, comma) && r[comma + 1..] == e;
    SplitAtLast(r, comma);
    var before := if comma < 0 then [] else Split(s[..comma]);
    assert comma >= 0 ==> r[..comma] == s[..comma];
    TrimAllAppend(before, e);
    ReverseAppend(TrimAll(before), Trimmed(e));
  }

  /** One round of the walk: the last element of `s[..n]` and the comma before it. */
  method NextToken(s: string, n: nat) returns (token: string, comma: int)
    requires n <= |s|
    ensures LastBefore(s, n, comma) && FromEnd(s, n) == [token] + FromEnd(s, comma)
  {
    var end := SkipBlank(s, n);
    var start;
    start, comma := ScanBack(s, end);
    token := s[start..end];
    TokenIsTrimmed(s, n, comma, start, end);
    LastElement(s, n, comma);
  }

  /**
   * For every string, the callback gets exactly the trimmed elements from the last to the first,
   * empty ones included, until it says false; the result is the last element in any case.
   */
  method WalkReverse(s: string, fn: Callback) returns (last: string, calls: seq<string>)
    ensures last == Elements(s)[|Elements(s)| - 1]
    ensures fn.Nil? ==> calls == []
    ensures fn.Fn? ==> calls == Walked(Reverse(Elements(s)), fn.call)
  {
    ghost var all := FromEnd(s, |s|);
    assert s[..|s|] == s;
    assert all[0] == Elements(s)[|Elements(s)| - 1];
    calls, last := [], "";
    var once := true;
    var n := |s|;
    var going := true;
    while going
      invariant 0 <= n <= |s| && (once ==> n == |s| && calls == [] && going)
      invariant once || last == all[0]
      invariant fn.Nil? ==> calls == []
      invariant fn.Fn? ==> Walked(all, fn.call) == calls + if going then Walked(FromEnd(s, n), fn.call) else []
      decreases going, n
    {
      var token, comma := NextToken(s, n);
      if once {
        last, once := token, false;
      }
      if fn.Nil? {
        going := false;
      } else {
        WalkStep(calls, token, FromEnd(s, comma), fn.call);
        calls := calls + [token];
        going := fn.call(token) && comma >= 0;
        n := if going then comma else n;
      }
    }
  }

  lemma WalkStep(calls: seq<string>, token: string, left: seq<string>, fn: string -> bool)
    ensures calls + Walked([token] + left, fn) == calls + [token] + if fn(token) then Walked(left, fn) else []
  {
    assert ([token] + left)[1..] == left;
  }

  // ----- elements as the RFC has them

  function OwsTrimmed(e: string): string {
    TrimFrontOws(TrimBack(e))
  }

  function TrimFrontOws(e: string): string {
    if e != "" && IsOws(e[0]) then TrimFrontOws(e[1..]) else e
  }

  /** The walk trims an element as the RFC does exactly when what is left does not start with a control character. */
  lemma TrimsOwsExactly(e: string)
    ensures Trimmed(e) == OwsTrimmed(e) <==> OwsTrimmed(e) == "" || OwsTrimmed(e)[0] > ' '
  {
    TrimFrontSplits(TrimBack(e));
    TrimFrontShorter(OwsTrimmed(e));
  }

  lemma {:induction false} TrimFrontSplits(e: string)
    ensures TrimFront(e) == TrimFront(TrimFrontOws(e))
  {
    if e != "" && IsOws(e[0]) {
      TrimFrontSplits(e[1..]);
    }
  }

  lemma {:induction false} TrimFrontShorter(e: string)
    ensures |TrimFront(e)| <= |e| && (TrimFront(e) == e <==> e == "" || e[0] > ' ')
  {
    if e != "" && e[0] <= ' ' {
      TrimFrontShorter(e[1..]);
    }
  }

  /** No control characters other than tab. */
  predicate Plain(s: string) {
    forall i :: 0 <= i < |s| ==> s[i] >= ' ' || s[i] == '\t'
  }

  lemma {:induction false} PlainTrim(e: string)
    requires Plain(e)
    ensures Plain(TrimBack(e)) && Plain(TrimFrontOws(e))
    ensures TrimFrontOws(e) != "" ==> TrimFrontOws(e)[0] > ' '
    decreases |e|
  {
    if e != "" {
      PlainTrim(e[..|e| - 1]);
      PlainTrim(e[1..]);
    }
  }

  /** The comma-separated elements without the white space around them (RFC 9110, section 5.6.1). */
  function OwsElements(s: string): (es: seq<string>)
    ensures |es| == |Split(s)|
  {
    seq(|Split(s)|, i requires 0 <= i < |Split(s)| => OwsTrimmed(Split(s)[i]))
  }

  /** On values without control characters those are the elements the walk finds. */
  lemma PlainElements(s: string)
    requires Plain(s)
    ensures Elements(s) == OwsElements(s)
  {
    PlainParts(s);
    forall i | 0 <= i < |Split(s)| ensures Elements(s)[i] == OwsTrimmed(Split(s)[i]) {
      PlainTrim(Split(s)[i]);
      PlainTrim(TrimBack(Split(s)[i]));
      TrimsOwsExactly(Split(s)[i]);
    }
  }

  lemma {:induction false} PlainParts(s: string)
    requires Plain(s)
    ensures forall i :: 0 <= i < |Split(s)| ==> Plain(Split(s)[i])
  {
    if ',' in s {
      PlainParts(s[..LastComma(s)]);
    }
  }
}
