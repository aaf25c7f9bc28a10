/**
 * The two loops of Conn.Setup on one HTTP/1.1 connection: requests are written by one, responses
 * read by the other, and sessions are handed over on unbuffered channels. Sessions are numbers;
 * every session is submitted once.
 */
module Pipeline {

  datatype Writer = Receiving | Writing(s: nat) | Handing(s: nat) | WriterGone
  datatype Reader = Waiting | Reading(s: nat) | ReaderGone

  /**
   * `submitted`, `written`, `handed` and `served` list the sessions that Do gave to the writer,
   * that the writer wrote out, that reached the reader, and that the reader has signalled, each in
   * order; `responses` those that got a response; `signals` everything sent on a doneCh.
   */
  datatype System = System(writer: Writer, reader: Reader, werr: bool, rerr: bool,
                           submitted: seq<nat>, written: seq<nat>, handed: seq<nat>, served: seq<nat>,
                           responses: seq<nat>, signals: seq<nat>)

  datatype Event =
    | Submit(s: nat)       // Do's send on wloop meets the writer
    | Wrote(ok: bool)      // writeRequest returns
    | Hand                 // the send on rloop meets the reader
    | Read(ok: bool)       // readResponse returns

  const START := System(Receiving, Waiting, false, false, [], [], [], [], [], [])

  function Next(y: System, e: Event): System {
    match e
    case Submit(s) =>
      if !y.writer.Receiving? || s in y.submitted then y
      else if y.werr then y.(writer := WriterGone, submitted := y.submitted + [s], signals := y.signals + [s])
      else y.(writer := Writing(s), submitted := y.submitted + [s])
    case Wrote(ok) =>
      if !y.writer.Writing? then y
      else if ok then y.(writer := Handing(y.writer.s), written := y.written + [y.writer.s])
      else y.(writer := WriterGone, werr := true, signals := y.signals + [y.writer.s])
    case Hand =>
      if !y.writer.Handing? || !y.reader.Waiting? then y
      else
        var s := y.writer.s;
        var z := y.(writer := Receiving, handed := y.handed + [s]);
        if y.rerr then z.(reader := ReaderGone, served := y.served + [s], signals := y.signals + [s])
        else z.(reader := Reading(s))
    case Read(ok) =>
      if !y.reader.Reading? then y
      else
        var s := y.reader.s;
        y.(reader := Waiting, rerr := y.rerr || !ok, served := y.served + [s], signals := y.signals + [s],
           responses := if ok then y.responses + [s] else y.responses)
  }

  ghost function Run(es: seq<Event>): System {
    if es == [] then START else Next(Run(es[..|es| - 1]), es[|es| - 1])
  }

  predicate Distinct(xs: seq<nat>) {
    forall i, j :: 0 <= i < j < |xs| ==> xs[i] != xs[j]
  }

  function Current(y: System): seq<nat> {
    if y.writer.Writing? then [y.writer.s] else []
  }

  ghost predicate Inv(y: System) {
    && Distinct(y.submitted)
    && y.written + Current(y) <= y.submitted
    && |y.submitted| == |y.written + Current(y)| + (if y.werr then 1 else 0)
    && y.written == y.handed + (if y.writer.Handing? then [y.writer.s] else [])
    && y.handed == y.served + (if y.reader.Reading? then [y.reader.s] else [])
    && (y.werr ==> y.writer.WriterGone?) && (y.writer.WriterGone? ==> y.werr)
    && y.responses <= y.served
    && (if y.rerr then !y.reader.Reading? && |y.served| == |y.responses| + (if y.reader.ReaderGone? then 2 else 1)
        else y.responses == y.served && !y.reader.ReaderGone?)
    && Distinct(y.signals)
    && (forall s :: s in y.signals <==> s in y.served || (y.werr && s == y.submitted[|y.written|]))
    && |y.signals| == |y.served| + (if y.werr then 1 else 0)
    && (!y.werr ==> y.signals == y.served)
  }

  /** Lists of distinct sessions: what comes later is not among what came before. */
  lemma NotBefore(xs: seq<nat>, ys: seq<nat>, i: nat)
    requires Distinct(xs) && ys <= xs && |ys| <= i < |xs|
    ensures xs[i] !in ys
  {
  }

  lemma SubmitKeeps(y: System, e: Event)
    requires Inv(y) && e.Submit?
    ensures Inv(Next(y, e))
  {
  }

  lemma WroteKeeps(y: System, e: Event)
    requires Inv(y) && e.Wrote?
    ensures Inv(Next(y, e))
  {
    if y.writer.Writing? {
      assert y.submitted == y.written + [y.writer.s];
      NotBefore(y.submitted, y.served, |y.written|);
    }
  }

  lemma HandKeeps(y: System, e: Event)
    requires Inv(y) && e.Hand?
    ensures Inv(Next(y, e))
  {
    if y.writer.Handing? {
      assert y.submitted[|y.handed|] == y.writer.s;
      NotBefore(y.submitted, y.served, |y.handed|);
    }
  }

  lemma ReadKeeps(y: System, e: Event)
    requires Inv(y) && e.Read?
    ensures Inv(Next(y, e))
  {
    if y.reader.Reading? {
      assert y.handed == y.submitted[..|y.handed|] && y.submitted[|y.served|] == y.reader.s;
      NotBefore(y.submitted, y.served, |y.served|);
    }
  }

  lemma {:induction false} AlwaysInv(es: seq<Event>)
    ensures Inv(Run(es))
  {
    if es != [] {
      AlwaysInv(es[..|es| - 1]);
      var (y, e) := (Run(es[..|es| - 1]), es[|es| - 1]);
      match e
      case Submit(_) => SubmitKeeps(y, e);
      case Wrote(_) => WroteKeeps(y, e);
      case Hand => HandKeeps(y, e);
      case Read(_) => ReadKeeps(y, e);
    }
  }

  /**
   * In every run, failures included: requests go out in the order sessions were submitted,
   * sessions reach the reader in the order their requests were written, and the i-th response read
   * is given to the i-th request.
   */
  lemma PipelineOrder(es: seq<Event>)
    ensures var y := Run(es);
            && y.responses <= y.served <= y.handed <= y.written <= y.submitted
            && Distinct(y.submitted)
  {
    AlwaysInv(es);
    var y := Run(es);
    assert y.written <= y.written + Current(y);
  }

  /**
   * And up to the first failure at most two requests are written and not completed, and the
   * completed ones are signalled.
   */
  lemma PipelineDepth(es: seq<Event>)
    ensures var y := Run(es);
            && |y.written| - |y.served| <= 2
            && (!y.werr && !y.rerr ==> y.signals == y.responses == y.served)
  {
    AlwaysInv(es);
  }

  /**
   * In every run no session is signalled twice, and those signalled are the served ones and at most
   * one failed write.
   */
  lemma SignalledOnce(es: seq<Event>)
    ensures var y := Run(es);
            && Distinct(y.signals)
            && (forall s :: s in y.served ==> s in y.signals)
            && (forall s :: s in y.signals ==> s in y.submitted)
            && |y.served| <= |y.signals| <= |y.served| + 1
  {
    AlwaysInv(es);
    var y := Run(es);
    forall s | s in y.signals ensures s in y.submitted {
      if s in y.served {
        PipelineOrder(es);
      }
    }
  }

  // ----- after a failed read

  lemma Extend(es: seq<Event>, e: Event) returns (fs: seq<Event>)
    ensures fs == es + [e] && Run(fs) == Next(Run(es), e)
  {
    fs := es + [e];
    assert fs[..|es|] == es;
  }

  /** What a step leaves as it is: the requests written so far, and after a failed read the responses. */
  lemma StepKeeps(y: System, e: Event)
    requires Inv(y)
    ensures y.written <= Next(y, e).written
    ensures y.rerr ==> Next(y, e).rerr && Next(y, e).responses == y.responses
  {
  }

  lemma {:induction false} LaterKeeps(es: seq<Event>, fs: seq<Event>)
    ensures Run(es).written <= Run(es + fs).written
    ensures Run(es).rerr ==> Run(es + fs).rerr && Run(es + fs).responses == Run(es).responses
    decreases |fs|
  {
    if fs == [] {
      assert es + fs == es;
    } else {
      var (gs, e) := (fs[..|fs| - 1], fs[|fs| - 1]);
      LaterKeeps(es, gs);
      AlwaysInv(es + gs);
      var all := Extend(es + gs, e);
      assert all == es + fs;
      StepKeeps(Run(es + gs), e);
    }
  }

  /**
   * If the read for the `j`-th request handed over fails (then `j` responses were read before), the
   * next session to arrive is answered with the error and the reader returns. Those two are the
   * last ones it signals, in every continuation.
   */
  lemma AfterFailedRead(es: seq<Event>, fs: seq<Event>)
    requires Run(es).rerr
    ensures var (j, z) := (|Run(es).responses|, Run(es + fs));
            && z.responses == Run(es).responses && z.responses <= z.served
            && j + 1 <= |z.served| <= j + 2
            && (z.reader.ReaderGone? <==> |z.served| == j + 2)
            && (forall i :: j + 2 <= i < |z.written| ==> z.written[i] !in z.signals)
  {
    LaterKeeps(es, fs);
    AlwaysInv(es + fs);
    var (j, z) := (|Run(es).responses|, Run(es + fs));
    forall i | j + 2 <= i < |z.written| ensures z.written[i] !in z.signals {
      NotServed(z, i);
    }
  }

  lemma NotServed(z: System, i: nat)
    requires Inv(z) && |z.served| <= i < |z.written|
    ensures z.written[i] !in z.signals
  {
    assert z.written == z.submitted[..|z.written|];
    NotBefore(z.submitted, z.served, i);
  }

  /** While the reader is there for it, a written request can get its answer: hand it over if need be, then read. */
  lemma AnswerReachable(es: seq<Event>, i: nat) returns (fs: seq<Event>)
    requires i < |Run(es).written|
    requires !Run(es).rerr || i < |Run(es).responses| + 2
    ensures Run(es).written[i] in Run(es + fs).signals
  {
    AlwaysInv(es);
    var (y, s) := (Run(es), Run(es).written[i]);
    if i < |y.served| {
      fs := [];
      assert es + fs == es && s == y.served[i];
    } else if y.reader.Waiting? {
      assert y.writer == Handing(s);
      fs := HandAndRead(es, s);
    } else {
      var next := Extend(es, Read(true));
      if i == |y.served| {
        fs := [Read(true)];
      } else {
        assert Run(next).writer == Handing(s);
        var gs := HandAndRead(next, s);
        fs := [Read(true)] + gs;
        assert es + fs == next + gs;
      }
    }
  }

  lemma HandAndRead(es: seq<Event>, s: nat) returns (fs: seq<Event>)
    requires Run(es).reader.Waiting? && Run(es).writer == Handing(s)
    ensures s in Run(es + fs).signals
  {
    fs := [Hand, Read(true)];
    var mid := Extend(es, Hand);
    var end := Extend(mid, Read(true));
    assert end == es + fs;
  }

  /** A write that fails is signalled by the writer. */
  lemma SignalOfWriter(es: seq<Event>, i: nat) returns (fs: seq<Event>)
    requires |Run(es).written| <= i < |Run(es).submitted|
    ensures Run(es).submitted[i] in Run(es + fs).signals
  {
    AlwaysInv(es);
    if Run(es).werr {
      fs := [];
      assert es + fs == es;
    } else {
      assert Run(es).writer == Writing(Run(es).submitted[i]);
      fs := [Wrote(false)];
      var end := Extend(es, Wrote(false));
    }
  }

  /**
   * Exactly which sessions the writer has taken can still get their signal: all of them while no
   * read has failed; after one, those up to the session behind it, and one whose request is not
   * written, which is signalled if the write fails. Any other waits for a signal that no
   * continuation sends.
   */
  lemma AnsweredExactly(es: seq<Event>, i: nat)
    requires i < |Run(es).submitted|
    ensures (exists fs :: Run(es).submitted[i] in Run(es + fs).signals)
            <==> !Run(es).rerr || i < |Run(es).responses| + 2 || |Run(es).written| <= i
  {
    PipelineOrder(es);
    if |Run(es).written| <= i {
      var fs := SignalOfWriter(es, i);
    } else if !Run(es).rerr || i < |Run(es).responses| + 2 {
      var fs := AnswerReachable(es, i);
    } else {
      forall fs ensures Run(es).written[i] !in Run(es + fs).signals {
        LaterKeeps(es, fs);
        AfterFailedRead(es, fs);
        assert Run(es + fs).written[i] == Run(es).written[i];
      }
    }
  }

  /** With the reader gone and a request handed over to nobody, the whole connection stands still. */
  lemma {:induction false} StuckForEver(es: seq<Event>, fs: seq<Event>, s: nat)
    requires Run(es).reader.ReaderGone? && Run(es).writer == Handing(s)
    ensures Run(es + fs) == Run(es) && s !in Run(es + fs).signals
    decreases |fs|
  {
    if fs == [] {
      assert es + fs == es;
      AlwaysInv(es);
      NotServed(Run(es), |Run(es).handed|);
    } else {
      var gs := fs[..|fs| - 1];
      StuckForEver(es, gs, s);
      assert (es + fs)[..|es + fs| - 1] == es + gs;
    }
  }

  /** Three sessions; the read for the first one fails. */
  lemma FirstReadFails() returns (es: seq<Event>)
    ensures Run(es) == System(Receiving, Waiting, false, true, [0], [0], [0], [0], [], [0])
  {
    es := Extend([], Submit(0));
    es := Extend(es, Wrote(true));
    es := Extend(es, Hand);
    es := Extend(es, Read(false));
  }

  /**
   * Such a run exists: three sessions, the first read fails, the third is never answered. It takes
   * callers that open several sessions on one Conn; see `AnsweredAlone` for the others.
   */
  lemma StuckIsReachable() returns (es: seq<Event>)
    ensures Run(es).reader.ReaderGone? && Run(es).writer == Handing(2)
    ensures Run(es).rerr && Run(es).responses == [] && Run(es).written == [0, 1, 2]
    ensures forall fs :: 2 !in Run(es + fs).signals
  {
    es := FirstReadFails();
    es := Extend(es, Submit(1));
    es := Extend(es, Wrote(true));
    es := Extend(es, Hand);
    es := Extend(es, Submit(2));
    es := Extend(es, Wrote(true));
    assert Run(es).submitted == [0, 1, 2];
    AnsweredExactly(es, 2);
  }

  // ----- one session at a time

  /** All sessions taken so far were signalled, and no read has failed. */
  predicate Free(y: System) {
    !y.rerr && !y.werr && forall i :: 0 <= i < |y.submitted| ==> y.submitted[i] in y.signals
  }

  /**
   * How the pool uses a connection: a session is given it when the one before has let go of it, and
   * never after a failure, which closes the connection before it is signalled.
   */
  ghost predicate Alone(es: seq<Event>) {
    es == [] || (Alone(es[..|es| - 1]) && (es[|es| - 1].Submit? ==> Free(Run(es[..|es| - 1]))))
  }

  /** At most one session is open, and none after a failed read. */
  ghost predicate AtMostOne(y: System) {
    |y.submitted| <= |y.served| + 1 && (y.rerr ==> |y.submitted| == |y.served| == |y.responses| + 1)
  }

  lemma FreeIsServed(y: System)
    requires Inv(y)
    ensures Free(y) ==> y.submitted == y.served
  {
    assert !y.werr ==> y.served <= y.submitted;
    if !y.werr && |y.served| < |y.submitted| {
      NotBefore(y.submitted, y.served, |y.served|);
      assert y.submitted[|y.served|] !in y.signals;
    }
  }

  lemma StepAlone(y: System, e: Event)
    requires Inv(y) && AtMostOne(y) && (e.Submit? ==> Free(y))
    ensures AtMostOne(Next(y, e))
  {
    if e.Submit? {
      FreeIsServed(y);
    }
  }

  lemma {:induction false} AloneIsOne(es: seq<Event>)
    requires Alone(es)
    ensures AtMostOne(Run(es))
  {
    if es != [] {
      AloneIsOne(es[..|es| - 1]);
      AlwaysInv(es[..|es| - 1]);
      StepAlone(Run(es[..|es| - 1]), es[|es| - 1]);
    }
  }

  /**
   * Used that way, every session a writer has taken can get its signal in every reachable state,
   * failed reads included.
   */
  lemma AnsweredAlone(es: seq<Event>, i: nat)
    requires Alone(es) && i < |Run(es).submitted|
    ensures exists fs :: Run(es).submitted[i] in Run(es + fs).signals
  {
    AloneIsOne(es);
    AnsweredExactly(es, i);
  }
}
