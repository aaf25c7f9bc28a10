/**
 * WriteRequestBody: a buffer refilled from the request body, drained by whatever credit there is,
 * and shifted down after every DATA frame.
 */
module BodyWriter {
  import opened Words
  import opened FlowControl

  datatype DataFrame = DataFrame(data: seq<byte>, endStream: bool)

  datatype ReadError = NoError | Eof | OtherError

  /** How the call ended; `Running` when it still had not after the turns it was given. */
  datatype Outcome = Running | Done | Cancelled | FramerFailed | BodyTooLong | BodyTooShort

  /**
   * What the surroundings do. `quiet`: no cancellation and no framer error. The reader delivers
   * `delivers` bytes of the body at most; if that is not all, it reports an error from there on.
   * `fails(i)`: it also reports one, other than io.EOF, in turn `i`. `eager`: it makes progress as
   * far as it goes. `prompt`: it may report the end even to an empty buffer; other readers do not.
   */
  datatype Surroundings = Surroundings(quiet: bool, eager: bool, prompt: bool, delivers: nat, fails: nat -> bool)

  /** How much of the body the reader gets to. */
  function Reach(source: seq<byte>, delivers: nat): nat {
    Min(|source|, delivers)
  }

  function Flat(wire: seq<DataFrame>): seq<byte> {
    if wire == [] then [] else Flat(wire[..|wire| - 1]) + wire[|wire| - 1].data
  }

  lemma FlatAppend(wire: seq<DataFrame>, f: DataFrame)
    ensures Flat(wire + [f]) == Flat(wire) + f.data
  {
    assert (wire + [f])[..|wire|] == wire;
  }

  /** DATA frames fit the limit, none is empty but a last one, and none but the last ends the stream. */
  predicate WellFramed(wire: seq<DataFrame>, limit: nat) {
    forall i :: 0 <= i < |wire| ==>
      && |wire[i].data| <= limit
      && (wire[i].data != [] || wire[i].endStream)
      && (wire[i].endStream ==> i == |wire| - 1)
  }

  predicate Ended(wire: seq<DataFrame>) {
    wire != [] && wire[|wire| - 1].endStream
  }

  lemma WellFramedAppend(wire: seq<DataFrame>, f: DataFrame, limit: nat)
    requires WellFramed(wire, limit) && !Ended(wire) && |f.data| <= limit && (f.data != [] || f.endStream)
    ensures WellFramed(wire + [f], limit)
  {
  }

  lemma MoreRead(sent: seq<byte>, buffered: seq<byte>, source: seq<byte>, pos: nat, l: nat)
    requires pos + l <= |source| && sent + buffered == source[..pos]
    ensures sent + (buffered + source[pos..pos + l]) == source[..pos + l]
  {
    assert sent + (buffered + source[pos..pos + l]) == (sent + buffered) + source[pos..pos + l];
  }

  lemma MoveOver(sent: seq<byte>, buffered: seq<byte>, w: nat)
    requires w <= |buffered|
    ensures (sent + buffered[..w]) + buffered[w..] == sent + buffered
  {
  }

  /**
   * An io.Reader over `source` at `pos`: any number of the next bytes, EOF only at the end, and
   * any other error when it fails or gets no further. An eager one returns a byte whenever there
   * is room and one to come, and reports the end, if it is prompt or there is room.
   */
  method ReadSome(source: seq<byte>, pos: nat, room: nat, around: Surroundings, turn: nat)
    returns (l: nat, err: ReadError)
    requires pos <= Reach(source, around.delivers)
    ensures l <= room && pos + l <= Reach(source, around.delivers)
    ensures err == Eof ==> pos + l == |source| && (room > 0 || around.prompt)
    ensures around.eager && pos == |source| && (room > 0 || around.prompt) ==> err == Eof
    ensures around.eager && pos < Reach(source, around.delivers) && room > 0 ==> l > 0
    ensures err == OtherError <==> err != Eof && (around.fails(turn) || pos == around.delivers < |source|)
  {
    var most := Reach(source, around.delivers) - pos;
    l :| 0 <= l <= room && l <= most && (around.eager && most > 0 && room > 0 ==> l > 0);
    var atEnd: bool := *;
    if pos + l == |source| && (room > 0 || around.prompt) && (atEnd || (around.eager && l == 0)) {
      err := Eof;
    } else {
      err := if around.fails(turn) || pos == around.delivers < |source| then OtherError else NoError;
    }
  }

  /** `data.Read(chunk[current:])` */
  method Refill(chunk: array<byte>, current: nat, source: seq<byte>, pos: nat, around: Surroundings, turn: nat)
    returns (l: nat, err: ReadError)
    requires current <= chunk.Length && pos <= Reach(source, around.delivers)
    modifies chunk
    ensures current + l <= chunk.Length && pos + l <= Reach(source, around.delivers)
    ensures chunk[..current + l] == old(chunk[..current]) + source[pos..pos + l]
    ensures err == Eof ==> pos + l == |source| && (current < chunk.Length || around.prompt)
    ensures around.eager && pos == |source| && (current < chunk.Length || around.prompt) ==> err == Eof
    ensures around.eager && pos < Reach(source, around.delivers) && current < chunk.Length ==> l > 0
    ensures err == OtherError <==> err != Eof && (around.fails(turn) || pos == around.delivers < |source|)
  {
    l, err := ReadSome(source, pos, chunk.Length - current, around, turn);
    forall i | 0 <= i < l {
      chunk[current + i] := source[pos + i];
    }
  }

  /** `copy(chunk[:current-w], chunk[w:current])` */
  method ShiftDown(chunk: array<byte>, w: nat, current: nat)
    requires w <= current <= chunk.Length
    modifies chunk
    ensures chunk[..current - w] == old(chunk[w..current])
  {
    forall i | 0 <= i < current - w {
      chunk[i] := chunk[w + i];
    }
  }

  /** takeOutflow once it no longer waits, whatever the two positive windows are then. */
  method TakeOutflow(sz: uint32) returns (got: uint32)
    ensures got <= sz && (sz > 0 ==> got > 0)
  {
    var stream: int32 :| 0 < stream <= MAX_INT32;
    var conn: int32 :| 0 < conn <= MAX_INT32;
    got := Grant(sz, stream, conn);
  }

  /** The size of the chunk buffer. */
  function BufferSize(maxFrame: nat, sz: int): (n: int)
  {
    if sz == -1 then maxFrame else Min(maxFrame, sz)
  }

  /**
   * The loop's variables besides the buffer itself, how much credit was taken, and how many reads
   * reported an error other than io.EOF.
   */
  datatype Progress = Progress(read: nat, current: uint32, sawEOF: bool, wire: seq<DataFrame>, taken: nat, errors: nat)

  const START := Progress(0, 0, false, [], 0, 0)

  /** What was read is on the wire and in the buffer, in order; EOF was seen only at the end. */
  predicate Exact(p: Progress, buffered: seq<byte>, source: seq<byte>, limit: nat, delivers: nat) {
    && p.read <= Reach(source, delivers) && |buffered| == p.current <= limit
    && Flat(p.wire) + buffered == source[..p.read]
    && WellFramed(p.wire, limit)
    && (p.sawEOF ==> p.read == |source|)
  }

  /** Every byte on the wire was paid for, and no more was taken, but for a frame the framer did not write. */
  predicate Paid(r: Outcome, p: Progress) {
    if r == FramerFailed then |Flat(p.wire)| <= p.taken else |Flat(p.wire)| == p.taken
  }

  /** What each outcome says about the wire. */
  predicate Verdict(r: Outcome, p: Progress, source: seq<byte>, sz: int, last: bool) {
    && Paid(r, p)
    && match r
       case Done => p.sawEOF && last && Flat(p.wire) == source && Ended(p.wire) && (sz != -1 ==> |source| == sz)
       case BodyTooShort =>
         p.sawEOF && last && Flat(p.wire) == source && Ended(p.wire) && sz != -1 && |source| < sz
       case BodyTooLong => sz != -1 && sz < p.read <= |source| && (Ended(p.wire) ==> last && p.sawEOF)
       case Running => !Ended(p.wire) && (sz != -1 ==> p.read <= sz)
       case _ => !Ended(p.wire)
  }

  /**
   * The declared sizes for which the loop reads anything: a 1024-byte buffer has read threshold 0
   * and is never filled; an empty one never gets past a body that is not empty, nor past the end of
   * an empty one unless the reader is prompt.
   */
  predicate Starts(source: seq<byte>, sz: int, prompt: bool) {
    sz != 1024 && (sz == 0 ==> source == [] && prompt)
  }

  /** And those uses for which it can reach the end of the body: it stops there only to write END_STREAM. */
  predicate CanFinish(source: seq<byte>, sz: int, last: bool, prompt: bool) {
    last && Starts(source, sz, prompt)
  }

  /**
   * What the call comes to, in quiet surroundings and with a reader that is eager as far as it
   * goes. Errors the reader reports play no part in it: a body that can be read to its end is sent
   * whole whatever else was reported, and one that cannot is read for ever.
   */
  function ComesTo(source: seq<byte>, sz: int, last: bool, prompt: bool, delivers: nat): Outcome {
    if !Starts(source, sz, prompt) then Running
    else if sz != -1 && Reach(source, delivers) > sz then BodyTooLong
    else if !last || delivers < |source| then Running
    else if sz == -1 || |source| == sz then Done
    else BodyTooShort
  }

  /** Decreases in every turn of such a run until nothing is left to do. */
  function Measure(p: Progress, source: seq<byte>, delivers: nat): int {
    2 * (Reach(source, delivers) - p.read) + p.current + if p.sawEOF then 0 else 1
  }

  /** All the reader has to give is read and sent, and the loop goes on: it has no end to report, or may not say so. */
  predicate AtRest(p: Progress, source: seq<byte>, last: bool, delivers: nat) {
    p.current == 0 && p.read == Reach(source, delivers) && (delivers < |source| || (p.sawEOF && !last))
  }

  /** Turns such a run needs at most. */
  function TurnsNeeded(source: seq<byte>): nat {
    2 * |source| + 2
  }

  /**
   * The measure has paid for the turns so far; once at rest, all later ones read an error if the
   * body is not all there.
   */
  predicate OnSchedule(p: Progress, turn: nat, source: seq<byte>, last: bool, delivers: nat) {
    if AtRest(p, source, last, delivers) then delivers < |source| ==> turn <= p.errors + TurnsNeeded(source)
    else turn + Measure(p, source, delivers) < TurnsNeeded(source)
  }

  function ReadThreshold(bufSz: int): uint32 {
    ToUint32(Min(bufSz - 1024, 512))
  }

  /**
   * When a buffer of that size, holding `current` bytes, is read into: one below 1024 bytes always
   * (the subtraction wraps), a larger one while it holds few bytes, one of 1024 never.
   */
  lemma ThresholdMeans(bufSz: nat, current: nat)
    requires current <= bufSz <= 0xFF_FFFF
    ensures current < ReadThreshold(bufSz) <==> bufSz < 1024 || (current < 512 && current < bufSz - 1024)
  {
  }

  /** `Starts`, as far as the buffer can tell. */
  predicate CanFill(bufSz: int, source: seq<byte>, prompt: bool) {
    ReadThreshold(bufSz) > 0 && (bufSz == 0 ==> source == [] && prompt)
  }

  predicate Untouched(p: Progress) {
    p.read == 0 && p.current == 0 && !p.sawEOF && p.wire == [] && p.taken == 0
  }

  /** First half of a turn: read into the free part of the buffer if it runs low. */
  method Fill(chunk: array<byte>, p: Progress, source: seq<byte>, around: Surroundings, turn: nat) returns (q: Progress)
    requires p.current <= chunk.Length < 0x100_0000
    requires Exact(p, chunk[..p.current], source, chunk.Length, around.delivers)
    modifies chunk
    ensures q.current <= chunk.Length && Exact(q, chunk[..q.current], source, chunk.Length, around.delivers)
    ensures q.wire == p.wire && q.taken == p.taken
              && Measure(q, source, around.delivers) <= Measure(p, source, around.delivers)
    ensures q.read >= p.read && (p.sawEOF ==> q == p)
    ensures !CanFill(chunk.Length, source, around.prompt) && Untouched(p) ==> Untouched(q)
    ensures around.eager && CanFill(chunk.Length, source, around.prompt) && q.current == 0 ==>
              q.sawEOF || q.read == around.delivers < |source|
    ensures p.errors <= q.errors <= p.errors + 1
    ensures !around.fails(turn) && around.delivers >= |source| ==> q.errors == p.errors
    ensures CanFill(chunk.Length, source, around.prompt) && p.current == 0 && p.read == around.delivers < |source| ==>
              q.errors == p.errors + 1
    ensures CanFill(chunk.Length, source, around.prompt) && p == START && around.fails(turn)
            && chunk.Length < |source| ==>
              q.errors == 1
  {
    q := p;
    if !p.sawEOF && p.current < ReadThreshold(chunk.Length) {
      var l, err := Refill(chunk, p.current, source, p.read, around, turn);
      q := p.(sawEOF := err == Eof, current := p.current + l, read := p.read + l,
              errors := p.errors + if err == OtherError then 1 else 0);
      FillKeeps(p, q, old(chunk[..p.current]), chunk[..q.current], l, source, chunk.Length, around.delivers);
    }
  }

  lemma FillKeeps(p: Progress, q: Progress, before: seq<byte>, after: seq<byte>, l: nat, source: seq<byte>,
                  limit: nat, delivers: nat)
    requires Exact(p, before, source, limit, delivers) && p.read + l <= Reach(source, delivers)
    requires q.current == p.current + l <= limit && q.read == p.read + l
    requires q.wire == p.wire && after == before + source[p.read..p.read + l]
    requires q.sawEOF ==> q.read == |source|
    ensures Exact(q, after, source, limit, delivers)
  {
    MoreRead(Flat(p.wire), before, source, p.read, l);
  }

  /** One DATA frame with the first `w` buffered bytes; the rest moves to the front. */
  method Emit(chunk: array<byte>, p: Progress, w: uint32, endStream: bool, source: seq<byte>, ghost delivers: nat)
    returns (q: Progress)
    requires w <= p.current <= chunk.Length && Exact(p, chunk[..p.current], source, chunk.Length, delivers)
    requires !Ended(p.wire) && (w > 0 || endStream)
    modifies chunk
    ensures q.current == p.current - w && Exact(q, chunk[..q.current], source, chunk.Length, delivers)
    ensures q == p.(wire := q.wire, current := q.current) && (Ended(q.wire) <==> endStream)
    ensures |Flat(q.wire)| == |Flat(p.wire)| + w
  {
    ghost var buffered := chunk[..p.current];
    var frame := DataFrame(chunk[..w], endStream);
    assert buffered[..w] == chunk[..w] && buffered[w..] == chunk[w..p.current];
    EmitKeeps(p, buffered, w, endStream, source, chunk.Length, delivers);
    FlatAppend(p.wire, frame);
    ShiftDown(chunk, w, p.current);
    q := p.(wire := p.wire + [frame], current := p.current - w);
  }

  lemma EmitKeeps(p: Progress, buffered: seq<byte>, w: uint32, endStream: bool, source: seq<byte>, limit: nat,
                  delivers: nat)
    requires w <= p.current && Exact(p, buffered, source, limit, delivers) && !Ended(p.wire) && (w > 0 || endStream)
    ensures Exact(p.(wire := p.wire + [DataFrame(buffered[..w], endStream)], current := p.current - w),
                  buffered[w..], source, limit, delivers)
  {
    var frame := DataFrame(buffered[..w], endStream);
    FlatAppend(p.wire, frame);
    WellFramedAppend(p.wire, frame, limit);
    MoveOver(Flat(p.wire), buffered, w);
  }

  /** Second half: take credit, emit a DATA frame if there is something to say, and decide. */
  method Drain(chunk: array<byte>, p: Progress, source: seq<byte>, sz: int, last: bool, around: Surroundings)
    returns (q: Progress, r: Outcome)
    requires p.current <= chunk.Length < 0x100_0000
    requires Exact(p, chunk[..p.current], source, chunk.Length, around.delivers)
    requires !Ended(p.wire) && Paid(Running, p) && -1 <= sz
    modifies chunk
    ensures q.current <= p.current && Exact(q, chunk[..q.current], source, chunk.Length, around.delivers)
    ensures Verdict(r, q, source, sz, last) && r != Cancelled && (around.quiet ==> r != FramerFailed)
    ensures q == p.(wire := q.wire, current := q.current, taken := q.taken)
    ensures around.quiet && r == Running && p.current > 0 ==> q.current < p.current
    ensures p.current == 0 && !(p.sawEOF && last) ==> q == p && r in {Running, BodyTooLong}
    ensures around.quiet && p.current == 0 && p.sawEOF && last ==> r != Running
  {
    r := Running;
    var w := TakeOutflow(p.current);
    q := p.(taken := p.taken + w);
    var endStream := last && p.sawEOF && w == p.current;
    if w > 0 || endStream {
      var failed: bool := *;
      if failed && !around.quiet {
        r := FramerFailed;
        return;
      }
      q := Emit(chunk, q, w, endStream, source, around.delivers);
    }
    if sz != -1 && p.read > sz {
      r := BodyTooLong;
    } else if endStream {
      assert chunk[..q.current] == [] && source[..q.read] == source;
      r := if sz != -1 && p.read < sz then BodyTooShort else Done;
    }
  }

  /** One turn of the loop. */
  method Turn(chunk: array<byte>, p: Progress, source: seq<byte>, sz: int, last: bool, around: Surroundings, turn: nat)
    returns (q: Progress, r: Outcome)
    requires p.current <= chunk.Length < 0x100_0000
    requires Exact(p, chunk[..p.current], source, chunk.Length, around.delivers)
    requires -1 <= sz && Verdict(Running, p, source, sz, last)
    modifies chunk
    ensures q.current <= chunk.Length && Exact(q, chunk[..q.current], source, chunk.Length, around.delivers)
    ensures Verdict(r, q, source, sz, last) && (around.quiet ==> r != Cancelled && r != FramerFailed)
    ensures around.quiet && around.eager && CanFill(chunk.Length, source, around.prompt) && r == Running
            && OnSchedule(p, turn, source, last, around.delivers) ==>
              OnSchedule(q, turn + 1, source, last, around.delivers)
    ensures !CanFill(chunk.Length, source, around.prompt) && Untouched(p) ==>
              Untouched(q) && r in {Running, Cancelled, BodyTooLong}
    ensures q.errors >= p.errors
    ensures !around.fails(turn) && around.delivers >= |source| ==> q.errors == p.errors
    ensures around.quiet && CanFill(chunk.Length, source, around.prompt) && p == START && around.fails(turn)
            && chunk.Length < |source| ==>
              q.errors > 0
  {
    var cancelled: bool := *;
    if cancelled && !around.quiet {
      return p, Cancelled;
    }
    q := Fill(chunk, p, source, around, turn);
    q, r := Drain(chunk, q, source, sz, last, around);
  }

  /** The loop itself, for a number of turns. */
  method Loop(chunk: array<byte>, source: seq<byte>, sz: int, last: bool, around: Surroundings, turns: nat)
    returns (p: Progress, r: Outcome)
    requires chunk.Length < 0x100_0000 && -1 <= sz
    requires CanFill(chunk.Length, source, around.prompt) <==> Starts(source, sz, around.prompt)
    modifies chunk
    ensures p.current <= chunk.Length && Exact(p, chunk[..p.current], source, chunk.Length, around.delivers)
    ensures Verdict(r, p, source, sz, last) && (around.quiet ==> r != Cancelled && r != FramerFailed)
    ensures !Starts(source, sz, around.prompt) ==> Untouched(p) && r in {Running, Cancelled}
    ensures around.quiet && around.eager && Starts(source, sz, around.prompt) && r == Running ==>
              OnSchedule(p, turns, source, last, around.delivers)
    ensures around.quiet && Starts(source, sz, around.prompt) && around.fails(0) && turns > 0
            && chunk.Length < |source| ==>
              p.errors > 0
    ensures (forall t :: !around.fails(t)) && around.delivers >= |source| ==> p.errors == 0
  {
    p, r := START, Running;
    var turn := 0;
    while turn < turns && r == Running
      invariant 0 <= turn <= turns
      invariant p.current <= chunk.Length && Exact(p, chunk[..p.current], source, chunk.Length, around.delivers)
      invariant Verdict(r, p, source, sz, last) && (around.quiet ==> r != Cancelled && r != FramerFailed)
      invariant !Starts(source, sz, around.prompt) ==> Untouched(p) && r in {Running, Cancelled}
      invariant around.quiet && around.eager && Starts(source, sz, around.prompt) && r == Running ==>
                  OnSchedule(p, turn, source, last, around.delivers)
      invariant (forall t :: !around.fails(t)) && around.delivers >= |source| ==> p.errors == 0
      invariant if turn == 0 then p == START && r == Running
                else around.quiet && Starts(source, sz, around.prompt) && around.fails(0) && chunk.Length < |source| ==>
                    p.errors > 0
    {
      p, r := Turn(chunk, p, source, sz, last, around, turn);
      turn := turn + 1;
    }
  }

  lemma Settled(r: Outcome, p: Progress, source: seq<byte>, sz: int, last: bool, prompt: bool, delivers: nat)
    requires p.read <= Reach(source, delivers) && (p.sawEOF ==> p.read == |source|) && Verdict(r, p, source, sz, last)
    requires -1 <= sz && Starts(source, sz, prompt) && r != Cancelled && r != FramerFailed
    requires r == Running ==> AtRest(p, source, last, delivers)
    ensures r == ComesTo(source, sz, last, prompt, delivers)
  {
  }

  /**
   * For every reader, every grant schedule and any number of turns: the wire holds, in order, what
   * was read and is no longer buffered; on `Done` it is exactly the whole body, of the declared
   * length if there is one, and END_STREAM is on its last frame only. The credit taken is the number
   * of bytes on the wire, unless the framer failed to write what was paid for.
   *
   * In quiet surroundings with a reader that is eager as far as it goes, the call comes to `ComesTo`
   * and nothing else, whatever errors were reported: no such error is ever returned. If the reader
   * stops short of the body and of the declared size, the loop runs on for any number of turns, and
   * all but the first few of them read the error again.
   */
  method WriteRequestBody(source: seq<byte>, sz: int, last: bool, maxFrame: nat, around: Surroundings, turns: nat)
    returns (r: Outcome, wire: seq<DataFrame>, read: nat, buffered: seq<byte>, taken: nat, errors: nat)
    requires 0x4000 <= maxFrame <= 0xFF_FFFF && -1 <= sz
    ensures read <= |source| && Flat(wire) + buffered == source[..read]
    ensures WellFramed(wire, maxFrame)
    ensures |Flat(wire)| <= taken && (r != FramerFailed ==> |Flat(wire)| == taken)
    ensures r == Done ==> Flat(wire) == source && Ended(wire) && (sz != -1 ==> |source| == sz)
    ensures r == BodyTooShort ==> Flat(wire) == source && Ended(wire) && sz != -1 && |source| < sz
    ensures r == BodyTooLong ==> sz != -1 && |source| >= read > sz
    ensures r in {Running, Cancelled, FramerFailed} ==> !Ended(wire)
    ensures around.quiet ==> r != Cancelled && r != FramerFailed
    ensures around.quiet && around.eager && turns >= TurnsNeeded(source) ==>
              r == ComesTo(source, sz, last, around.prompt, around.delivers)
    ensures around.delivers < |source| ==>
              && read <= around.delivers && !Ended(wire)
              && (around.quiet && (sz == -1 || around.delivers <= sz) ==> r == Running)
    ensures around.delivers < |source| && around.quiet && around.eager && Starts(source, sz, around.prompt)
            && r == Running ==>
              turns <= errors + TurnsNeeded(source)
    ensures around.quiet && Starts(source, sz, around.prompt) && around.fails(0) && turns > 0 && maxFrame < |source| ==>
              errors > 0
    ensures (forall t :: !around.fails(t)) && around.delivers >= |source| ==> errors == 0
    ensures around.quiet && around.eager && last && around.delivers >= |source| && turns >= 2 * |source| + 2 ==>
              && (sz !in {0, 1024} && (sz == -1 || |source| == sz) ==> r == Done)
              && (sz !in {0, 1024} && sz > |source| ==> r == BodyTooShort)
              && (sz !in {0, 1024} && 0 <= sz < |source| ==> r == BodyTooLong)
              && (sz == 0 && source == [] ==> r == if around.prompt then Done else Running)
    ensures around.quiet && (sz == 1024 || (sz == 0 && source != [])) ==> r == Running && wire == [] && read == 0
    ensures sz != -1 ==> forall i :: 0 <= i < |wire| ==> |wire[i].data| <= sz
    ensures !last || sz == 1024 || (sz == 0 && !(source == [] && around.prompt)) ==>
              r != Done && r != BodyTooShort && !Ended(wire)
    ensures !CanFinish(source, sz, last, around.prompt) ==> r != Done && r != BodyTooShort && !Ended(wire)
    ensures !Starts(source, sz, around.prompt) ==> wire == [] && read == 0 && r in {Running, Cancelled}
  {
    var chunk := new byte[BufferSize(maxFrame, sz)];
    var p;
    p, r := Loop(chunk, source, sz, last, around, turns);
    if around.quiet && around.eager && Starts(source, sz, around.prompt) && turns >= TurnsNeeded(source) {
      Settled(r, p, source, sz, last, around.prompt, around.delivers);
    }
    wire, read, buffered, taken, errors := p.wire, p.read, chunk[..p.current], p.taken, p.errors;
  }
}
