/**
 * Header blocks on the wire: WriteHeaders cuts an encoded block into HEADERS and CONTINUATION
 * frames, and the lock taken with the stream id keeps the blocks of concurrent openers apart
 * (RFC 9113, sections 5.1.1 and 6.10). The encoder itself is a parameter: any bytes.
 */
module HeaderBlocks {
  import opened Words

  datatype Frame =
    | Headers(id: nat, fragment: seq<byte>, endHeaders: bool, endStream: bool)
    | Continuation(id: nat, fragment: seq<byte>, endHeaders: bool)

  /** A frame with the peer's frame size limit in force when it was written. */
  datatype Sent = Sent(frame: Frame, limit: nat)

  datatype Block = Block(id: nat, bytes: seq<byte>, endStream: bool)

  // ----- what a receiver makes of the frames

  /** A receiver between blocks, inside one, or after a connection error. */
  datatype Receiver =
    | Between(lastId: int, blocks: seq<Block>)
    | Inside(open: Block, blocks: seq<Block>)
    | Broken
  {
    function Accept(f: Frame): Receiver {
      match (this, f)
      case (Between(lastId, bs), Headers(id, fragment, endHeaders, endStream)) =>
        if id <= lastId || id % 2 == 0 then Broken
        else if endHeaders then Between(id, bs + [Block(id, fragment, endStream)])
        else Inside(Block(id, fragment, endStream), bs)
      case (Inside(b, bs), Continuation(id, fragment, endHeaders)) =>
        if id != b.id then Broken
        else
          var c := b.(bytes := b.bytes + fragment);
          if endHeaders then Between(id, bs + [c]) else Inside(c, bs)
      case _ => Broken
    }

    function AcceptAll(wire: seq<Sent>): Receiver {
      if wire == [] then this else AcceptAll(wire[..|wire| - 1]).Accept(wire[|wire| - 1].frame)
    }
  }

  lemma AcceptOneMore(r: Receiver, wire: seq<Sent>, s: Sent)
    ensures r.AcceptAll(wire + [s]) == r.AcceptAll(wire).Accept(s.frame)
  {
    assert (wire + [s])[..|wire|] == wire;
  }

  predicate Ascending(bs: seq<Block>, last: int) {
    && (forall i :: 0 <= i < |bs| ==> bs[i].id % 2 == 1 && bs[i].id <= last)
    && forall i, j :: 0 <= i < j < |bs| ==> bs[i].id < bs[j].id
  }

  /** A receiver that is not broken has odd ids only, each above the one before, whatever it was sent. */
  lemma {:induction false} ReceivesInOrder(wire: seq<Sent>)
    ensures var r := LISTENING.AcceptAll(wire);
            && (r.Between? ==> Ascending(r.blocks, r.lastId))
            && (r.Inside? ==> r.open.id % 2 == 1 && Ascending(r.blocks, r.open.id - 1))
  {
    if wire != [] {
      var n := |wire| - 1;
      ReceivesInOrder(wire[..n]);
      var (before, r) := (LISTENING.AcceptAll(wire[..n]), LISTENING.AcceptAll(wire));
      assert r == before.Accept(wire[n].frame);
    }
  }

  // ----- one block

  /** The next fragment and what is left after it. */
  function Cut(rest: seq<byte>, limit: nat): (seq<byte>, seq<byte>) {
    if |rest| <= limit then (rest, []) else (rest[..limit], rest[limit..])
  }

  function NextFrame(b: Block, first: bool, rest: seq<byte>, limit: nat): Frame {
    var endHeaders := |rest| <= limit;
    if first then Headers(b.id, Cut(rest, limit).0, endHeaders, b.endStream)
    else Continuation(b.id, Cut(rest, limit).0, endHeaders)
  }

  /** What a receiver knows when `rest` of block `b` is still to come. */
  predicate Midway(r: Receiver, b: Block, first: bool, rest: seq<byte>, before: seq<Block>) {
    && b.id % 2 == 1
    && if first then r.Between? && r.lastId < b.id && rest == b.bytes && r.blocks == before
       else if rest == [] then r == Between(b.id, before + [b])
       else r.Inside? && r.open.bytes + rest == b.bytes && r == Inside(b.(bytes := r.open.bytes), before)
  }

  /** Writing the next frame takes a receiver from midway to midway, whatever the limit is by now. */
  lemma OneFrame(r: Receiver, b: Block, first: bool, rest: seq<byte>, before: seq<Block>, limit: nat)
    requires Midway(r, b, first, rest, before) && rest != [] && limit > 0
    ensures Midway(r.Accept(NextFrame(b, first, rest, limit)), b, false, Cut(rest, limit).1, before)
    ensures |NextFrame(b, first, rest, limit).fragment| <= limit
    ensures NextFrame(b, first, rest, limit).endHeaders <==> Cut(rest, limit).1 == []
  {
    var (chunk, left) := Cut(rest, limit);
    assert chunk + left == rest;
    if !first {
      assert (r.open.bytes + chunk) + left == r.open.bytes + rest;
    }
  }

  /** HEADERS first, END_HEADERS on the last frame once all is `out` and on no other, each under its limit. */
  ghost predicate Flagged(wire: seq<Sent>, b: Block, limits: nat -> nat, out: bool) {
    forall i :: 0 <= i < |wire| ==>
      && wire[i].limit == limits(i) && |wire[i].frame.fragment| <= limits(i) && wire[i].frame.id == b.id
      && (wire[i].frame.Headers? <==> i == 0) && (i == 0 ==> wire[i].frame.endStream == b.endStream)
      && (wire[i].frame.endHeaders <==> out && i == |wire| - 1)
  }

  /** Frames it takes to send `n` bytes, the first of them being frame `i`. */
  function FramesNeeded(n: nat, limits: nat -> nat, i: nat): nat
    requires forall i :: limits(i) > 0
    decreases n
  {
    if n == 0 then 0 else if n <= limits(i) then 1 else 1 + FramesNeeded(n - limits(i), limits, i + 1)
  }

  /**
   * The loop of WriteHeaders, the limit being read anew (`limits(i)`) before the i-th frame, which
   * is not written if the call is cancelled or the framer fails then (`stops(i)`). A receiver that
   * was between blocks gets exactly the block, on whatever schedule of limits; a block of no bytes
   * writes no frame at all. The block gives up at the first stop among the frames it needs, and then
   * leaves the receiver midway with `left` still to come.
   */
  method WriteHeaders(b: Block, limits: nat -> nat, stops: nat -> bool, ghost r: Receiver)
    returns (ok: bool, wire: seq<Sent>, ghost left: seq<byte>)
    requires forall i :: limits(i) > 0
    requires r.Between? && r.lastId < b.id && b.id % 2 == 1
    ensures ok ==> r.AcceptAll(wire) == if b.bytes == [] then r else Between(b.id, r.blocks + [b])
    ensures !ok ==> left != [] && Midway(r.AcceptAll(wire), b, wire == [], left, r.blocks)
    ensures Flagged(wire, b, limits, ok)
    ensures var needed := FramesNeeded(|b.bytes|, limits, 0);
            && (ok <==> forall i :: 0 <= i < needed ==> !stops(i))
            && (if ok then |wire| == needed else |wire| < needed && stops(|wire|))
    ensures forall i :: 0 <= i < |wire| ==> !stops(i)
  {
    var first, data := true, b.bytes;
    wire, ok, left := [], true, [];
    while |data| > 0
      invariant (first <==> wire == []) && (!first ==> b.bytes != [])
      invariant Midway(r.AcceptAll(wire), b, first, data, r.blocks)
      invariant Flagged(wire, b, limits, data == [])
      invariant |wire| + FramesNeeded(|data|, limits, |wire|) == FramesNeeded(|b.bytes|, limits, 0)
      invariant forall i :: 0 <= i < |wire| ==> !stops(i)
      decreases |data|
    {
      if stops(|wire|) {
        return false, wire, data;
      }
      var limit := limits(|wire|);
      var frame, more := TakeFrame(b, first, data, limit);
      OneFrame(r.AcceptAll(wire), b, first, data, r.blocks, limit);
      AcceptOneMore(r, wire, Sent(frame, limit));
      FlaggedStep(wire, b, limits, data);
      wire, first, data := wire + [Sent(frame, limit)], false, more;
    }
  }

  /** The next frame off the front of `data`. */
  method TakeFrame(b: Block, first: bool, data: seq<byte>, limit: nat) returns (frame: Frame, rest: seq<byte>)
    ensures frame == NextFrame(b, first, data, limit) && rest == Cut(data, limit).1
  {
    var chunk: seq<byte>;
    var endHeaders := |data| <= limit;
    if !endHeaders {
      chunk, rest := data[..limit], data[limit..];
    } else {
      chunk, rest := data, [];
    }
    if first {
      frame := Headers(b.id, chunk, endHeaders, b.endStream);
    } else {
      frame := Continuation(b.id, chunk, endHeaders);
    }
  }

  lemma FlaggedStep(wire: seq<Sent>, b: Block, limits: nat -> nat, data: seq<byte>)
    requires limits(|wire|) > 0 && Flagged(wire, b, limits, false)
    ensures var limit := limits(|wire|);
            Flagged(wire + [Sent(NextFrame(b, wire == [], data, limit), limit)], b, limits, Cut(data, limit).1 == [])
  {
  }

  function Sum(sizes: seq<nat>): nat {
    if sizes == [] then 0 else Sum(sizes[..|sizes| - 1]) + sizes[|sizes| - 1]
  }

  /**
   * EncodeHeaders with WriteHeaders as its callback; `sizes` are the field sizes and `b.bytes` what
   * the encoder makes of the fields. A list over the peer's limit writes nothing. The size is added
   * up in a uint32, so only the sum modulo 2^32 is compared with the limit.
   */
  method EncodeHeaders(sizes: seq<nat>, maxListSize: uint32, b: Block, limits: nat -> nat, stops: nat -> bool,
                       ghost r: Receiver)
    returns (ok: bool, wire: seq<Sent>)
    requires forall i :: limits(i) > 0
    requires r.Between? && r.lastId < b.id && b.id % 2 == 1
    ensures Sum(sizes) % TWO_32 > maxListSize ==> !ok && wire == []
    ensures Sum(sizes) % TWO_32 <= maxListSize ==>
              (ok <==> forall i :: 0 <= i < FramesNeeded(|b.bytes|, limits, 0) ==> !stops(i))
    ensures ok ==> r.AcceptAll(wire) == if b.bytes == [] then r else Between(b.id, r.blocks + [b])
    ensures Flagged(wire, b, limits, ok)
  {
    var total: uint32 := 0;
    var i := 0;
    while i < |sizes|
      invariant 0 <= i <= |sizes| && total == ToUint32(Sum(sizes[..i]))
    {
      assert sizes[..i + 1][..i] == sizes[..i];
      TruncatedSum(Sum(sizes[..i]), sizes[i]);
      total := ToUint32(total + sizes[i]);
      i := i + 1;
    }
    assert sizes[..i] == sizes;
    TruncationIsResidue(Sum(sizes));
    if total > maxListSize {
      return false, [];
    }
    ghost var left;
    ok, wire, left := WriteHeaders(b, limits, stops, r);
  }

  // ----- any number of openers

  /** An opener between AssignStreamID and the release of the lock it returned. */
  datatype Opener = Opener(block: Block, encoded: bool, first: bool, rest: seq<byte>)

  /** The entries the encoder had in its dynamic table when it encoded a block, and those the block added. */
  datatype Encoding = Encoding(context: seq<nat>, entries: seq<nat>)

  /**
   * `blocks` lists what was to be sent, in the order ids were assigned; `abandoned` has the ids of
   * blocks given up. `table` is what the encoder has put in its dynamic table, in order, and
   * `encodings` says so of every block that is encoded and not empty.
   */
  datatype System = System(lastId: int, locked: bool, openers: map<nat, Opener>, wire: seq<Sent>, blocks: seq<Block>,
                           abandoned: set<nat>, table: seq<nat>, encodings: map<nat, Encoding>)

  datatype Event =
    | Assign(t: nat, bytes: seq<byte>, endStream: bool)   // take the lock and an id, or wait
    | Encode(t: nat, entries: seq<nat>)                   // run t's fields through the encoder
    | Write(t: nat, limit: nat)                           // one frame of t's block
    | Unlock(t: nat)                                      // t's block is out
    | Abandon(t: nat)                                     // t gives up with bytes left, and unlocks all the same

  const START := System(-1, false, map[], [], [], {}, [], map[])

  function Next(s: System, e: Event): System {
    match e
    case Assign(t, bytes, endStream) =>
      if s.locked || t in s.openers then s
      else
        var b := Block(Nat(s.lastId + 2), bytes, endStream);
        s.(lastId := s.lastId + 2, locked := true, blocks := s.blocks + [b],
           openers := s.openers[t := Opener(b, false, true, bytes)])
    case Encode(t, entries) =>
      if t !in s.openers || s.openers[t].encoded then s
      else
        var o := s.openers[t];
        var d := s.(openers := s.openers[t := o.(encoded := true)]);
        if o.block.bytes == [] then d
        else d.(table := s.table + entries, encodings := s.encodings[o.block.id := Encoding(s.table, entries)])
    case Write(t, limit) =>
      if t !in s.openers || !s.openers[t].encoded || s.openers[t].rest == [] || limit == 0 then s
      else
        var o := s.openers[t];
        s.(wire := s.wire + [Sent(NextFrame(o.block, o.first, o.rest, limit), limit)],
           openers := s.openers[t := Opener(o.block, true, false, Cut(o.rest, limit).1)])
    case Unlock(t) =>
      if t !in s.openers || s.openers[t].rest != [] then s
      else s.(locked := false, openers := s.openers - {t})
    case Abandon(t) =>
      if t !in s.openers || s.openers[t].rest == [] then s
      else s.(locked := false, openers := s.openers - {t}, abandoned := s.abandoned + {s.openers[t].block.id})
  }

  function Nat(x: int): nat {
    if x < 0 then 0 else x
  }

  ghost function Run(es: seq<Event>): System {
    if es == [] then START else Next(Run(es[..|es| - 1]), es[|es| - 1])
  }

  // ----- blocks given up

  /** The block is given up after its first frame. */
  predicate CutsShort(s: System, e: Event) {
    e.Abandon? && e.t in s.openers && s.openers[e.t].rest != [] && !s.openers[e.t].first
  }

  predicate WritesFrame(s: System, e: Event) {
    e.Write? && e.t in s.openers && s.openers[e.t].encoded && s.openers[e.t].rest != [] && e.limit > 0
  }

  /** Some block was given up after its first frame. */
  ghost predicate CutShort(es: seq<Event>) {
    exists i :: 0 <= i < |es| && CutsShort(Run(es[..i]), es[i])
  }

  /** And after that another opener wrote a frame. */
  ghost predicate WrittenOn(es: seq<Event>) {
    exists j :: 0 <= j < |es| && CutShort(es[..j]) && WritesFrame(Run(es[..j]), es[j])
  }

  lemma CutShortStep(es: seq<Event>, e: Event)
    ensures CutShort(es + [e]) <==> CutShort(es) || CutsShort(Run(es), e)
  {
    var fs := es + [e];
    assert fs[..|es|] == es && fs[|es|] == e;
    assert forall i :: 0 <= i < |es| ==> fs[..i] == es[..i] && fs[i] == es[i];
    if CutsShort(Run(es), e) {
      assert CutsShort(Run(fs[..|es|]), fs[|es|]);
    }
    if i :| 0 <= i < |es| && CutsShort(Run(es[..i]), es[i]) {
      assert CutsShort(Run(fs[..i]), fs[i]);
    }
  }

  lemma WrittenOnStep(es: seq<Event>, e: Event)
    ensures WrittenOn(es + [e]) <==> WrittenOn(es) || (CutShort(es) && WritesFrame(Run(es), e))
  {
    var fs := es + [e];
    assert fs[..|es|] == es && fs[|es|] == e;
    assert forall i :: 0 <= i < |es| ==> fs[..i] == es[..i] && fs[i] == es[i];
    if CutShort(es) && WritesFrame(Run(es), e) {
      assert CutShort(fs[..|es|]) && WritesFrame(Run(fs[..|es|]), fs[|es|]);
    }
    if j :| 0 <= j < |es| && CutShort(es[..j]) && WritesFrame(Run(es[..j]), es[j]) {
      assert CutShort(fs[..j]) && WritesFrame(Run(fs[..j]), fs[j]);
    }
  }

  // ----- what a receiver gets

  /** The blocks that are not empty and were not given up. */
  function Expected(bs: seq<Block>, abandoned: set<nat>): seq<Block> {
    if bs == [] then []
    else
      var b := bs[|bs| - 1];
      Expected(bs[..|bs| - 1], abandoned) + if b.bytes == [] || b.id in abandoned then [] else [b]
  }

  lemma ExpectedLast(bs: seq<Block>, abandoned: set<nat>)
    requires bs != []
    ensures var b := bs[|bs| - 1];
            Expected(bs, abandoned) ==
            Expected(bs[..|bs| - 1], abandoned) + if b.bytes == [] || b.id in abandoned then [] else [b]
  {
  }

  lemma {:induction false} ExpectedWithout(bs: seq<Block>, abandoned: set<nat>, id: nat)
    requires forall i :: 0 <= i < |bs| ==> bs[i].id != id
    ensures Expected(bs, abandoned + {id}) == Expected(bs, abandoned)
  {
    if bs != [] {
      ExpectedWithout(bs[..|bs| - 1], abandoned, id);
    }
  }

  const LISTENING := Between(-1, [])

  function Before(s: System): seq<Block> {
    if s.locked && s.blocks != [] then s.blocks[..|s.blocks| - 1] else s.blocks
  }

  /** Ids, the lock and its holder. */
  ghost predicate Orderly(s: System) {
    && -1 <= s.lastId && s.lastId % 2 == 1 && s.lastId == 2 * |s.blocks| - 1
    && (forall i :: 0 <= i < |s.wire| ==> |s.wire[i].frame.fragment| <= s.wire[i].limit)
    && (forall i :: 0 <= i < |s.blocks| ==> s.blocks[i].id == 2 * i + 1)
    && (forall id :: id in s.abandoned ==> id <= s.lastId)
    && (if s.locked then exists t :: OnlyOpener(s, t) else s.openers == map[])
  }

  /** Opener `t` holds the lock, alone. */
  ghost predicate OnlyOpener(s: System, t: nat) {
    && s.openers.Keys == {t} && |s.blocks| > 0 && s.lastId !in s.abandoned
    && var o := s.openers[t];
      && o.block == s.blocks[|s.blocks| - 1] && o.block.id == s.lastId
      && (if o.first then o.rest == o.block.bytes else o.block.bytes != [])
  }

  /** The receiver while no block was cut short: between blocks, or midway through that of the lock's holder. */
  ghost predicate Following(s: System, r: Receiver) {
    var done := Expected(Before(s), s.abandoned);
    if s.locked then
      forall t :: OnlyOpener(s, t) ==> Midway(r, s.openers[t].block, s.openers[t].first, s.openers[t].rest, done)
    else r.Between? && r.lastId <= s.lastId && r.blocks == done
  }

  /** The receiver waiting for the rest of a block that was cut short, and no frame written since. */
  ghost predicate Waiting(s: System, r: Receiver) {
    && r.Inside? && r.blocks == Expected(Before(s), s.abandoned)
    && forall t :: OnlyOpener(s, t) ==> s.openers[t].first
  }

  ghost predicate Inv(s: System, cutShort: bool, writtenOn: bool) {
    var r := LISTENING.AcceptAll(s.wire);
    && Orderly(s)
    && (r.Broken? <==> writtenOn)
    && (!writtenOn ==> if cutShort then Waiting(s, r) else Following(s, r))
  }

  lemma AssignKeeps(s: System, e: Event, cut: bool, on: bool)
    requires Inv(s, cut, on) && e.Assign?
    ensures Inv(Next(s, e), cut, on)
  {
    if !s.locked {
      var d := Next(s, e);
      assert Before(d) == s.blocks;
      assert OnlyOpener(d, e.t);
    }
  }

  lemma EncodeKeeps(s: System, e: Event, cut: bool, on: bool)
    requires Inv(s, cut, on) && e.Encode?
    ensures Inv(Next(s, e), cut, on)
  {
    if e.t in s.openers {
      var d := Next(s, e);
      assert OnlyOpener(s, e.t);
      assert OnlyOpener(d, e.t) && Before(d) == Before(s);
    }
  }

  lemma WriteOrderly(s: System, e: Event)
    requires Orderly(s) && WritesFrame(s, e)
    ensures Orderly(Next(s, e)) && OnlyOpener(s, e.t) && OnlyOpener(Next(s, e), e.t)
    ensures s.locked && Before(Next(s, e)) == Before(s)
  {
    assert OnlyOpener(s, e.t);
    assert OnlyOpener(Next(s, e), e.t);
  }

  lemma WriteFollowed(s: System, e: Event, r: Receiver)
    requires Orderly(s) && WritesFrame(s, e) && Following(s, r)
    ensures var o := s.openers[e.t]; Following(Next(s, e), r.Accept(NextFrame(o.block, o.first, o.rest, e.limit)))
  {
    WriteOrderly(s, e);
    var o := s.openers[e.t];
    OneFrame(r, o.block, o.first, o.rest, Expected(Before(s), s.abandoned), e.limit);
  }

  lemma WriteBreaks(s: System, e: Event, r: Receiver)
    requires Orderly(s) && WritesFrame(s, e) && (r.Broken? || Waiting(s, r))
    ensures var o := s.openers[e.t]; r.Accept(NextFrame(o.block, o.first, o.rest, e.limit)).Broken?
  {
    WriteOrderly(s, e);
  }

  lemma FollowingIsWhole(s: System, r: Receiver)
    requires Orderly(s) && Following(s, r)
    ensures !r.Broken?
  {
    if s.locked {
      var t :| OnlyOpener(s, t);
    }
  }

  lemma WriteKeeps(s: System, e: Event, cut: bool, on: bool)
    requires Inv(s, cut, on) && e.Write?
    ensures Inv(Next(s, e), cut, on || (cut && WritesFrame(s, e)))
  {
    if WritesFrame(s, e) {
      var (r, d) := (LISTENING.AcceptAll(s.wire), Next(s, e));
      WriteOrderly(s, e);
      AcceptOneMore(LISTENING, s.wire, d.wire[|s.wire|]);
      if cut || on {
        WriteBreaks(s, e, r);
      } else {
        WriteFollowed(s, e, r);
        FollowingIsWhole(d, LISTENING.AcceptAll(d.wire));
      }
    }
  }

  lemma UnlockKeeps(s: System, e: Event, cut: bool, on: bool)
    requires Inv(s, cut, on) && e.Unlock?
    ensures Inv(Next(s, e), cut, on)
  {
    if e.t in s.openers && s.openers[e.t].rest == [] {
      assert OnlyOpener(s, e.t);
      ExpectedLast(s.blocks, s.abandoned);
    }
  }

  /** A block given up is expected no more, and nothing else changes. */
  lemma AbandonedIsNotExpected(s: System, e: Event)
    requires Orderly(s) && e.Abandon? && e.t in s.openers && s.openers[e.t].rest != []
    ensures var d := Next(s, e); Orderly(d) && Expected(Before(d), d.abandoned) == Expected(Before(s), s.abandoned)
    ensures OnlyOpener(s, e.t) && s.locked
  {
    var d := Next(s, e);
    assert OnlyOpener(s, e.t);
    ExpectedLast(s.blocks, d.abandoned);
    ExpectedWithout(Before(s), s.abandoned, s.openers[e.t].block.id);
  }

  lemma AbandonKeeps(s: System, e: Event, cut: bool, on: bool)
    requires Inv(s, cut, on) && e.Abandon?
    ensures Inv(Next(s, e), cut || CutsShort(s, e), on)
  {
    if e.t in s.openers && s.openers[e.t].rest != [] {
      AbandonedIsNotExpected(s, e);
    }
  }

  lemma {:induction false} AlwaysInv(es: seq<Event>)
    ensures Inv(Run(es), CutShort(es), WrittenOn(es))
  {
    if es != [] {
      var (before, e) := (es[..|es| - 1], es[|es| - 1]);
      assert before + [e] == es;
      AlwaysInv(before);
      CutShortStep(before, e);
      WrittenOnStep(before, e);
      var (s, cut, on) := (Run(before), CutShort(before), WrittenOn(before));
      match e
      case Assign(_, _, _) => AssignKeeps(s, e, cut, on);
      case Encode(_, _) => EncodeKeeps(s, e, cut, on);
      case Write(_, _) => WriteKeeps(s, e, cut, on);
      case Unlock(_) => UnlockKeeps(s, e, cut, on);
      case Abandon(_) => AbandonKeeps(s, e, cut, on);
    }
  }

  /** The blocks a receiver has complete. */
  function Complete(r: Receiver): seq<Block> {
    if r.Broken? then [] else r.blocks
  }

  /**
   * However openers interleave, and however the limit moves: every fragment fits the limit it was
   * written under, and as long as the receiver is not broken, its complete blocks are the encoded
   * blocks in order of id, byte for byte, without those given up, all but possibly the one still
   * being written.
   */
  lemma HeaderBlocksStayWhole(es: seq<Event>)
    ensures var (s, r) := (Run(es), LISTENING.AcceptAll(Run(es).wire));
            && (forall i :: 0 <= i < |s.wire| ==> |s.wire[i].frame.fragment| <= s.wire[i].limit)
            && (forall i, j :: 0 <= i < j < |s.blocks| ==> s.blocks[i].id < s.blocks[j].id)
            && (!r.Broken? ==> Complete(r) == Expected(s.blocks, s.abandoned)
                               || (s.locked && Complete(r) == Expected(Before(s), s.abandoned)))
            && (!r.Broken? && !s.locked ==> Complete(r) == Expected(s.blocks, s.abandoned))
  {
    AlwaysInv(es);
    var s := Run(es);
    if s.locked {
      var t :| OnlyOpener(s, t);
      ExpectedLast(s.blocks, s.abandoned);
    }
  }

  /** Event `i` cuts a block short, and the later event `j` writes a frame. */
  ghost predicate WrittenAfterCut(es: seq<Event>, i: nat, j: nat) {
    i < j < |es| && CutsShort(Run(es[..i]), es[i]) && WritesFrame(Run(es[..j]), es[j])
  }

  lemma CutBefore(es: seq<Event>, j: nat) returns (i: nat)
    requires j <= |es| && CutShort(es[..j])
    ensures i < j && CutsShort(Run(es[..i]), es[i])
  {
    var before := es[..j];
    i :| 0 <= i < |before| && CutsShort(Run(before[..i]), before[i]);
    assert before[..i] == es[..i];
  }

  lemma CutThenWritten(es: seq<Event>) returns (i: nat, j: nat)
    requires WrittenOn(es)
    ensures WrittenAfterCut(es, i, j)
  {
    j :| 0 <= j < |es| && CutShort(es[..j]) && WritesFrame(Run(es[..j]), es[j]);
    i := CutBefore(es, j);
  }

  lemma WrittenOnIf(es: seq<Event>, i: nat, j: nat)
    requires WrittenAfterCut(es, i, j)
    ensures WrittenOn(es)
  {
    var before := es[..j];
    assert before[..i] == es[..i] && before[i] == es[i];
    assert CutShort(before);
  }

  /**
   * A receiver meets a broken sequence of HEADERS and CONTINUATION frames exactly if some block was
   * given up after its first frame and a frame was written after that. A block given up before its
   * first frame leaves no trace in the sequence; what it does to the tables is said in HeaderTable.
   */
  lemma BrokenExactly(es: seq<Event>)
    ensures LISTENING.AcceptAll(Run(es).wire).Broken? <==> exists i: nat, j: nat :: WrittenAfterCut(es, i, j)
  {
    AlwaysInv(es);
    if WrittenOn(es) {
      var i, j := CutThenWritten(es);
    }
    forall i: nat, j: nat | WrittenAfterCut(es, i, j) ensures WrittenOn(es) {
      WrittenOnIf(es, i, j);
    }
  }

  /** No frame is written under a limit that a peer cannot set. */
  predicate WithinLimits(es: seq<Event>) {
    es == [] || (WithinLimits(es[..|es| - 1]) && (es[|es| - 1].Write? ==> 0x4000 <= es[|es| - 1].limit <= 0xFF_FFFF))
  }

  lemma Extend(es: seq<Event>, e: Event) returns (fs: seq<Event>)
    ensures fs == es + [e] && Run(fs) == Next(Run(es), e)
    ensures WithinLimits(fs) <==> WithinLimits(es) && (e.Write? ==> 0x4000 <= e.limit <= 0xFF_FFFF)
  {
    fs := es + [e];
    assert fs[..|es|] == es;
  }

  lemma CutShortRun(bytes: seq<byte>) returns (es: seq<Event>)
    requires |bytes| > 16384
    ensures es == [Assign(0, bytes, true), Encode(0, []), Write(0, 16384), Abandon(0)]
    ensures WithinLimits(es) && CutShort(es) && !Run(es).locked && Run(es).openers == map[]
  {
    es := Extend([], Assign(0, bytes, true));
    es := Extend(es, Encode(0, []));
    es := Extend(es, Write(0, 16384));
    assert CutsShort(Run(es), Abandon(0));
    CutShortStep(es, Abandon(0));
    es := Extend(es, Abandon(0));
  }

  /** Then the next opener can come as far as its first frame. */
  lemma NextOpener(es: seq<Event>, t: nat) returns (fs: seq<Event>)
    requires !Run(es).locked && Run(es).openers == map[]
    ensures fs == es + [Assign(t, [3], true)] + [Encode(t, [])]
    ensures WritesFrame(Run(fs), Write(t, 16384)) && (WithinLimits(es) ==> WithinLimits(fs))
  {
    var mid := Extend(es, Assign(t, [3], true));
    fs := Extend(mid, Encode(t, []));
  }

  lemma StaysCutShort(es: seq<Event>, e: Event)
    requires CutShort(es)
    ensures CutShort(es + [e])
  {
    CutShortStep(es, e);
  }

  lemma FrameBreaks(es: seq<Event>, t: nat) returns (fs: seq<Event>)
    requires CutShort(es) && WritesFrame(Run(es), Write(t, 16384))
    ensures fs == es + [Write(t, 16384)] && WrittenOn(fs) && (WithinLimits(es) ==> WithinLimits(fs))
  {
    WrittenOnStep(es, Write(t, 16384));
    fs := Extend(es, Write(t, 16384));
  }

  /**
   * Such a run exists within the limits a peer can set, for every block longer than the least of
   * them: cancelled after its first frame, the opener unlocks (the source returns and then
   * unlocks), and the next one's HEADERS breaks the connection, for good.
   */
  lemma AbandonedBlockBreaks(bytes: seq<byte>) returns (es: seq<Event>)
    requires |bytes| > 16384
    ensures es == [Assign(0, bytes, true), Encode(0, []), Write(0, 16384), Abandon(0)]
                  + [Assign(1, [3], true)] + [Encode(1, [])] + [Write(1, 16384)]
    ensures WithinLimits(es)
    ensures forall fs :: LISTENING.AcceptAll(Run(es + fs).wire).Broken?
  {
    var cut := CutShortRun(bytes);
    var next := NextOpener(cut, 1);
    StaysCutShort(cut, Assign(1, [3], true));
    StaysCutShort(cut + [Assign(1, [3], true)], Encode(1, []));
    es := FrameBreaks(next, 1);
    BrokenForGood(es);
  }

  lemma BrokenForGood(es: seq<Event>)
    requires WrittenOn(es)
    ensures forall fs :: LISTENING.AcceptAll(Run(es + fs).wire).Broken?
  {
    forall fs ensures LISTENING.AcceptAll(Run(es + fs).wire).Broken? {
      StaysWrittenOn(es, fs);
      AlwaysInv(es + fs);
    }
  }

  lemma StaysWrittenOn(es: seq<Event>, fs: seq<Event>)
    requires WrittenOn(es)
    ensures WrittenOn(es + fs)
  {
    var j :| 0 <= j < |es| && CutShort(es[..j]) && WritesFrame(Run(es[..j]), es[j]);
    assert (es + fs)[..j] == es[..j] && (es + fs)[j] == es[j];
  }
}
