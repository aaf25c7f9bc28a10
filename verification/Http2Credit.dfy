/**
 * Credit laws of RFC 9113, sections 6.9.1 and 6.9.2, over whole runs. A run is any sequence of
 * events from the initial state. The ledgers add up what the peer granted and what the client
 * took, event by event; the windows are compared with them.
 */
module Http2Credit {
  import opened Words
  import opened Http2Model

  ghost predicate Events(es: seq<Event>) {
    forall i :: 0 <= i < |es| ==> es[i].Valid()
  }

  ghost function Run(es: seq<Event>): (c: Conn)
    requires Events(es)
    ensures Inv(c)
  {
    if es == [] then INITIAL
    else
      var (before, e) := (Run(es[..|es| - 1]), es[|es| - 1]);
      NextKeeps(before, e);
      before.Next(e)
  }

  lemma RunStep(es: seq<Event>, e: Event)
    requires Events(es) && e.Valid()
    ensures Events(es + [e]) && Run(es + [e]) == Run(es).Next(e)
  {
    var fs := es + [e];
    assert fs[..|fs| - 1] == es && fs[|fs| - 1] == e;
  }

  // ----- entries of the ledgers

  /** Bytes event `e` lets stream `k` send. */
  function TakenBy(c: Conn, e: Event, k: nat): nat {
    if e.Take? && e.k == k then c.Got(k, e.want) else 0
  }

  /** Connection credit accepted from the peer. */
  function ConnCreditBy(c: Conn, e: Event): nat
    requires e.Valid()
  {
    if e.WindowUpdate? && e.id == 0 && !c.closing && FitsInt32(c.window + e.increment) then e.increment else 0
  }

  /** Credit for stream `k` accepted from the peer. */
  function StreamCreditBy(c: Conn, e: Event, k: nat): nat
    requires c.WellFormed() && e.Valid()
  {
    if && e.WindowUpdate? && e.id != 0 && !c.closing && c.Reaches(e.id) && c.active[e.id] == k
       && FitsInt32(c.streams[k].window + e.increment)
    then e.increment else 0
  }

  /** The initial window change stream `k` misses because its window could not take it. */
  function RefusedEntry(c: Conn, s: Setting, k: nat): int
    requires c.WellFormed()
  {
    var delta := s.val - c.InitialWindow();
    if && s.id == INITIAL_WINDOW_SIZE && k < |c.streams| && c.IsActive(k)
       && !FitsInt32(c.streams[k].window + delta)
    then delta else 0
  }

  /** The initial window change stream `k` misses because it has left the active map. */
  function MissedEntry(c: Conn, s: Setting, k: nat): int
    requires c.WellFormed()
  {
    if s.id == INITIAL_WINDOW_SIZE && k < |c.streams| && !c.IsActive(k) then s.val - c.InitialWindow() else 0
  }

  function RefusedIn(c: Conn, ss: seq<Setting>, k: nat): int
    requires c.WellFormed()
    decreases |ss|
  {
    if ss == [] || !ss[0].Acceptable() then 0
    else RefusedEntry(c, ss[0], k) + RefusedIn(c.Apply(ss[0]), ss[1..], k)
  }

  function MissedIn(c: Conn, ss: seq<Setting>, k: nat): int
    requires c.WellFormed()
    decreases |ss|
  {
    if ss == [] || !ss[0].Acceptable() then 0
    else MissedEntry(c, ss[0], k) + MissedIn(c.Apply(ss[0]), ss[1..], k)
  }

  function RefusedBy(c: Conn, e: Event, k: nat): int
    requires c.WellFormed()
  {
    if e.Settings? && !c.closing then RefusedIn(c, e.ss, k) else 0
  }

  function MissedBy(c: Conn, e: Event, k: nat): int
    requires c.WellFormed()
  {
    if e.Settings? && !c.closing then MissedIn(c, e.ss, k) else 0
  }

  // ----- the ledgers

  ghost function Taken(es: seq<Event>, k: nat): nat
    requires Events(es)
  {
    if es == [] then 0
    else Taken(es[..|es| - 1], k) + TakenBy(Run(es[..|es| - 1]), es[|es| - 1], k)
  }

  ghost function ConnCredit(es: seq<Event>): nat
    requires Events(es)
  {
    if es == [] then 0
    else ConnCredit(es[..|es| - 1]) + ConnCreditBy(Run(es[..|es| - 1]), es[|es| - 1])
  }

  ghost function StreamCredit(es: seq<Event>, k: nat): nat
    requires Events(es)
  {
    if es == [] then 0
    else StreamCredit(es[..|es| - 1], k) + StreamCreditBy(Run(es[..|es| - 1]), es[|es| - 1], k)
  }

  ghost function Refused(es: seq<Event>, k: nat): int
    requires Events(es)
  {
    if es == [] then 0
    else Refused(es[..|es| - 1], k) + RefusedBy(Run(es[..|es| - 1]), es[|es| - 1], k)
  }

  ghost function Missed(es: seq<Event>, k: nat): int
    requires Events(es)
  {
    if es == [] then 0
    else Missed(es[..|es| - 1], k) + MissedBy(Run(es[..|es| - 1]), es[|es| - 1], k)
  }

  /** Bytes taken by the first `n` streams ever opened, finished ones included. */
  ghost function TakenByFirst(es: seq<Event>, n: nat): nat
    requires Events(es)
  {
    Sum(k => Taken(es, k), n)
  }

  ghost function Sum(f: nat -> nat, n: nat): nat {
    if n == 0 then 0 else Sum(f, n - 1) + f(n - 1)
  }

  /** Adding to one term adds to the sum, if the term is in it. */
  lemma {:induction false} SumStep(f: nat -> nat, g: nat -> nat, n: nat, j: nat, added: nat)
    requires forall k: nat :: f(k) == g(k) + if k == j then added else 0
    ensures Sum(f, n) == Sum(g, n) + if j < n then added else 0
  {
    if n > 0 {
      SumStep(f, g, n - 1, j, added);
    }
  }

  // ----- one step

  /** `window - initial window` of stream `k`, zero before it exists. */
  function Offset(c: Conn, k: nat): int
    requires |c.peer| == 8
  {
    if k < |c.streams| then c.streams[k].window - c.InitialWindow() else 0
  }

  lemma ApplyOffset(c: Conn, s: Setting, k: nat)
    requires Inv(c) && s.Acceptable() && k < |c.streams|
    ensures c.Apply(s).IsActive(k) <==> c.IsActive(k)
    ensures Offset(c.Apply(s), k) == Offset(c, k) - RefusedEntry(c, s, k) - MissedEntry(c, s, k)
    ensures RefusedEntry(c, s, k) >= 0
    ensures c.IsActive(k) ==> MissedEntry(c, s, k) == 0
  {
  }

  lemma {:induction false} ApplyAllOffset(c: Conn, ss: seq<Setting>, k: nat)
    requires Inv(c) && k < |c.streams|
    ensures var d := c.ApplyAll(ss);
            && d.WellFormed() && |d.streams| == |c.streams|
            && Offset(d, k) == Offset(c, k) - RefusedIn(c, ss, k) - MissedIn(c, ss, k)
    ensures RefusedIn(c, ss, k) >= 0
    ensures c.IsActive(k) ==> MissedIn(c, ss, k) == 0
    decreases |ss|
  {
    if ss != [] && ss[0].Acceptable() {
      ApplyKeeps(c, ss[0]);
      ApplyOffset(c, ss[0], k);
      ApplyAllOffset(c.Apply(ss[0]), ss[1..], k);
    }
  }

  /** SETTINGS frames touch neither the connection window nor which streams exist or are live. */
  lemma {:induction false} ApplyAllFrame(c: Conn, ss: seq<Setting>)
    requires c.WellFormed()
    ensures var d := c.ApplyAll(ss);
            && d.WellFormed() && |d.streams| == |c.streams|
            && d.window == c.window && d.active == c.active && d.lastId == c.lastId
    ensures forall k :: 0 <= k < |c.streams| ==>
              c.ApplyAll(ss).streams[k] == c.streams[k].(window := c.ApplyAll(ss).streams[k].window)
    decreases |ss|
  {
    if ss != [] && ss[0].Acceptable() {
      ApplyAllFrame(c.Apply(ss[0]), ss[1..]);
    }
  }

  /** Streams are only ever added at the end, keep their ids, and once inactive stay inactive. */
  lemma NextStreams(c: Conn, e: Event, k: nat)
    requires c.WellFormed() && e.Valid()
    ensures |c.streams| <= |c.Next(e).streams| <= |c.streams| + 1
    ensures k < |c.streams| ==> c.Next(e).streams[k].id == c.streams[k].id
    ensures k < |c.streams| && c.Next(e).WellFormed() && c.Next(e).IsActive(k) ==> c.IsActive(k)
  {
    match e
    case Settings(ss) => ApplyAllFrame(c, ss);
    case _ =>
  }

  lemma NextWindow(c: Conn, e: Event)
    requires c.WellFormed() && e.Valid()
    ensures c.Next(e).window == c.window + ConnCreditBy(c, e) - (if e.Take? then c.Got(e.k, e.want) else 0)
    ensures e.Take? ==> |c.Next(e).streams| == |c.streams|
  {
    match e
    case Settings(ss) => ApplyAllFrame(c, ss);
    case _ =>
  }

  lemma WithOffset(c: Conn, j: nat, s: Stream, k: nat)
    requires |c.peer| == 8 && j < |c.streams| && s.window == c.streams[j].window
    ensures Offset(c.With(j, s), k) == Offset(c, k)
  {
  }

  lemma CreditOffset(c: Conn, id: uint32, increment: int, k: nat)
    requires c.WellFormed() && 0 <= increment <= MAX_INT32
    ensures var e := Event.WindowUpdate(id, increment);
            !c.closing ==> Offset(c.WindowUpdate(id, increment), k) == Offset(c, k) + StreamCreditBy(c, e, k)
  {
    if id != 0 && c.Reaches(id) {
      WithOffset(c, c.active[id], c.streams[c.active[id]].Reset(), k);
    }
  }

  lemma NextOffset(c: Conn, e: Event, k: nat)
    requires c.WellFormed() && e.Valid() && !e.Settings?
    requires c.Next(e).WellFormed() && k < |c.Next(e).streams|
    ensures Offset(c.Next(e), k) == Offset(c, k) + StreamCreditBy(c, e, k) - TakenBy(c, e, k)
  {
    match e
    case WindowUpdate(id, increment) => CreditOffset(c, id, increment, k);
    case _ =>
  }

  lemma NextLedger(c: Conn, e: Event, k: nat)
    requires Inv(c) && e.Valid()
    requires c.Next(e).WellFormed() && k < |c.Next(e).streams|
    ensures Offset(c.Next(e), k) ==
            Offset(c, k) + StreamCreditBy(c, e, k) - TakenBy(c, e, k) - RefusedBy(c, e, k) - MissedBy(c, e, k)
    ensures RefusedBy(c, e, k) >= 0
    ensures k < |c.streams| && c.IsActive(k) ==> MissedBy(c, e, k) == 0
  {
    NextStreams(c, e, k);
    if !e.Settings? {
      NextOffset(c, e, k);
    } else if !c.closing {
      ApplyAllFrame(c, e.ss);
      ApplyAllOffset(c, e.ss, k);
    }
  }

  /** Ledger entries exist only for streams that exist. */
  lemma {:induction false} NothingBeforeOpening(es: seq<Event>, k: nat)
    requires Events(es) && |Run(es).streams| <= k
    ensures Taken(es, k) == 0 && StreamCredit(es, k) == 0 && Refused(es, k) == 0 && Missed(es, k) == 0
  {
    if es != [] {
      var (before, e) := (es[..|es| - 1], es[|es| - 1]);
      NextStreams(Run(before), e, k);
      NothingBeforeOpening(before, k);
      if e.Settings? {
        NoEntryBeforeOpening(Run(before), e.ss, k);
      }
    }
  }

  lemma {:induction false} NoEntryBeforeOpening(c: Conn, ss: seq<Setting>, k: nat)
    requires Inv(c) && |c.streams| <= k
    ensures RefusedIn(c, ss, k) == 0 && MissedIn(c, ss, k) == 0
    decreases |ss|
  {
    if ss != [] && ss[0].Acceptable() {
      ApplyKeeps(c, ss[0]);
      NoEntryBeforeOpening(c.Apply(ss[0]), ss[1..], k);
    }
  }

  // ----- the laws

  /**
   * Stream credit law. The window of every stream ever opened is the initial window now in force,
   * plus accepted increments, minus bytes taken, minus the initial-window increases it had to refuse
   * and the changes it missed once it had left the active map. Refusals never add credit, and an
   * active stream has missed nothing, so without refusals this is the equation of section 6.9.2.
   */
  lemma StreamCreditLaw(es: seq<Event>, k: nat)
    requires Events(es) && k < |Run(es).streams|
    ensures Run(es).streams[k].window ==
            Run(es).InitialWindow() + StreamCredit(es, k) - Taken(es, k) - Refused(es, k) - Missed(es, k)
    ensures Refused(es, k) >= 0
    ensures Run(es).IsActive(k) ==> Missed(es, k) == 0
  {
    StreamOffsetLaw(es, k);
    if Run(es).IsActive(k) {
      ActiveMissesNothing(es, k);
    }
  }

  lemma {:induction false} StreamOffsetLaw(es: seq<Event>, k: nat)
    requires Events(es) && k < |Run(es).streams|
    ensures Offset(Run(es), k) == StreamCredit(es, k) - Taken(es, k) - Refused(es, k) - Missed(es, k)
    ensures Refused(es, k) >= 0
  {
    var (before, e) := (es[..|es| - 1], es[|es| - 1]);
    var c := Run(before);
    NextLedger(c, e, k);
    if k < |c.streams| {
      StreamOffsetLaw(before, k);
    } else {
      NothingBeforeOpening(before, k);
    }
  }

  lemma {:induction false} ActiveMissesNothing(es: seq<Event>, k: nat)
    requires Events(es) && k < |Run(es).streams| && Run(es).IsActive(k)
    ensures Missed(es, k) == 0
  {
    var (before, e) := (es[..|es| - 1], es[|es| - 1]);
    var c := Run(before);
    NextLedger(c, e, k);
    NextStreams(c, e, k);
    if k < |c.streams| {
      ActiveMissesNothing(before, k);
    } else {
      NothingBeforeOpening(before, k);
      if e.Settings? {
        NoEntryBeforeOpening(c, e.ss, k);
      }
    }
  }

  /** Bytes event `e` lets the first `n` streams send. */
  function GotByFirst(c: Conn, e: Event, n: nat): nat {
    if e.Take? && e.k < n then c.Got(e.k, e.want) else 0
  }

  /**
   * Connection credit law: 65535, plus accepted increments, minus everything ever taken by any
   * stream; and the window is never negative, so DATA on the wire never exceeds the credit granted.
   */
  lemma {:induction false} ConnectionCreditLaw(es: seq<Event>)
    requires Events(es)
    ensures Run(es).window == 65535 + ConnCredit(es) - TakenByFirst(es, |Run(es).streams|)
    ensures TakenByFirst(es, |Run(es).streams|) <= 65535 + ConnCredit(es)
  {
    if es == [] {
      assert TakenByFirst(es, 0) == 0;
    } else {
      var (before, e) := (es[..|es| - 1], es[|es| - 1]);
      var (c, n) := (Run(before), |Run(before).streams|);
      ConnectionCreditLaw(before);
      NextWindow(c, e);
      NewStreamTookNothing(es, n, |Run(es).streams|);
      TakenStep(es, n);
    }
  }

  lemma OneMoreStream(es: seq<Event>, n: nat)
    requires Events(es)
    ensures TakenByFirst(es, n + 1) == TakenByFirst(es, n) + Taken(es, n)
  {
  }

  /** The sum over all streams does not change when the list grows. */
  lemma NewStreamTookNothing(es: seq<Event>, n: nat, m: nat)
    requires Events(es) && es != [] && n == |Run(es[..|es| - 1]).streams| && m == |Run(es).streams|
    ensures TakenByFirst(es, m) == TakenByFirst(es, n)
  {
    NextStreams(Run(es[..|es| - 1]), es[|es| - 1], 0);
    if m != n {
      JustOpenedTookNothing(es, n);
      OneMoreStream(es, n);
    }
  }

  lemma JustOpenedTookNothing(es: seq<Event>, n: nat)
    requires Events(es) && es != [] && |Run(es[..|es| - 1]).streams| == n
    ensures Taken(es, n) == 0
  {
    var (before, e) := (es[..|es| - 1], es[|es| - 1]);
    NothingBeforeOpening(before, n);
    assert TakenBy(Run(before), e, n) == 0;
  }

  /** One event adds to the sum over the first `n` streams exactly what its taker got. */
  lemma TakenStep(es: seq<Event>, n: nat)
    requires Events(es) && es != []
    ensures var (before, e) := (es[..|es| - 1], es[|es| - 1]);
            TakenByFirst(es, n) == TakenByFirst(before, n) + GotByFirst(Run(before), e, n)
  {
    var (before, e) := (es[..|es| - 1], es[|es| - 1]);
    var (j, got) := if e.Take? then (e.k, Run(before).Got(e.k, e.want)) else (0, 0);
    SumStep(k => Taken(es, k), k => Taken(before, k), n, j, got);
  }

  // ----- takes of finished streams

  lemma LedgerStep(es: seq<Event>, e: Event, k: nat)
    requires Events(es) && e.Valid()
    ensures var (fs, c) := (es + [e], Run(es));
            && Events(fs)
            && Taken(fs, k) == Taken(es, k) + TakenBy(c, e, k)
            && StreamCredit(fs, k) == StreamCredit(es, k) + StreamCreditBy(c, e, k)
            && Refused(fs, k) == Refused(es, k) + RefusedBy(c, e, k)
  {
    var fs := es + [e];
    assert fs[..|fs| - 1] == es && fs[|fs| - 1] == e;
  }

  lemma NothingRefusedByFinished(c: Conn, s: Setting)
    requires c.WellFormed() && |c.streams| > 0 && !c.IsActive(0)
    ensures RefusedIn(c, [s], 0) == 0
  {
    assert [s][1..] == [];
  }

  /** Only SETTINGS change the initial window. */
  lemma InitialWindowKept(c: Conn, e: Event)
    requires c.WellFormed() && e.Valid() && !e.Settings?
    ensures c.Next(e).peer == c.peer
  {
  }

  /** A stream that has left the active map misses every change, whatever its amount. */
  lemma {:induction false} MissedInChange(c: Conn, ss: seq<Setting>, k: nat)
    requires Inv(c) && k < |c.streams| && !c.IsActive(k)
    ensures c.ApplyAll(ss).WellFormed() && MissedIn(c, ss, k) == c.ApplyAll(ss).InitialWindow() - c.InitialWindow()
    decreases |ss|
  {
    if ss != [] && ss[0].Acceptable() {
      ApplyKeeps(c, ss[0]);
      ApplyOffset(c, ss[0], k);
      MissedInChange(c.Apply(ss[0]), ss[1..], k);
    }
  }

  lemma MissedByChange(c: Conn, e: Event, k: nat)
    requires Inv(c) && e.Valid() && k < |c.streams| && c.Next(e).WellFormed() && k < |c.Next(e).streams|
    requires !c.Next(e).IsActive(k)
    ensures MissedBy(c, e, k) == c.Next(e).InitialWindow() - c.InitialWindow()
  {
    if !e.Settings? {
      InitialWindowKept(c, e);
    } else if !c.closing {
      ApplyAllFrame(c, e.ss);
      MissedInChange(c, e.ss, k);
    }
  }

  /** The initial window in force when stream `k` left the active map; the one now in force while it has not. */
  ghost function LeftUnder(es: seq<Event>, k: nat): uint32
    requires Events(es) && k < |Run(es).streams|
  {
    if es == [] || Run(es).IsActive(k) || |Run(es[..|es| - 1]).streams| <= k then Run(es).InitialWindow()
    else LeftUnder(es[..|es| - 1], k)
  }

  /** What a stream has missed is the change of the initial window since it left the active map. */
  lemma {:induction false} MissedIsChange(es: seq<Event>, k: nat)
    requires Events(es) && k < |Run(es).streams|
    ensures Missed(es, k) == Run(es).InitialWindow() - LeftUnder(es, k)
  {
    var (before, e) := (es[..|es| - 1], es[|es| - 1]);
    var c := Run(before);
    if Run(es).IsActive(k) {
      ActiveMissesNothing(es, k);
    } else if k < |c.streams| {
      MissedIsChange(before, k);
      MissedByChange(c, e, k);
    } else {
      JustOpenedMissesNothing(es, k);
    }
  }

  lemma JustOpenedMissesNothing(es: seq<Event>, k: nat)
    requires Events(es) && es != [] && |Run(es[..|es| - 1]).streams| <= k
    ensures Missed(es, k) == 0
  {
    var (before, e) := (es[..|es| - 1], es[|es| - 1]);
    NothingBeforeOpening(before, k);
    if e.Settings? {
      NoEntryBeforeOpening(Run(before), e.ss, k);
    }
  }

  /** Stream `k` is out of the active map, and left it under that initial window. */
  ghost predicate Left(es: seq<Event>, k: nat, under: uint32) {
    Events(es) && k < |Run(es).streams| && !Run(es).IsActive(k) && LeftUnder(es, k) == under
  }

  lemma LeftStep(es: seq<Event>, k: nat, under: uint32)
    requires Events(es) && es != [] && Left(es[..|es| - 1], k, under)
    ensures Left(es, k, under)
  {
    NextStreams(Run(es[..|es| - 1]), es[|es| - 1], k);
  }

  /** A stream that has left stays out, in every continuation, and the window it left under stays the same. */
  lemma {:induction false} LeftForGood(es: seq<Event>, end: seq<Event>, k: nat, under: uint32)
    requires Events(end) && es <= end && Left(es, k, under)
    ensures Left(end, k, under)
    decreases |end|
  {
    if es != end {
      LeftForGood(es, end[..|end| - 1], k, under);
      LeftStep(end, k, under);
    }
  }

  /**
   * A take keeps the stream's total within the credit granted to it under the initial window now in
   * force exactly when it leaves in the window at least what the initial window was lowered by since
   * the stream left the active map, less what the stream refused before. So it can overdraw only if
   * the initial window was lowered after the stream finished, and an active stream never does.
   */
  lemma TakesStayWithinCredit(es: seq<Event>, k: nat, want: uint32)
    requires Events(es) && k < |Run(es).streams| && Run(es).Got(k, want) > 0
    ensures Events(es + [Take(k, want)])
    ensures var (c, got, lowered) := (Run(es), Run(es).Got(k, want), LeftUnder(es, k) - Run(es).InitialWindow());
            && (Taken(es + [Take(k, want)], k) <= c.InitialWindow() + StreamCredit(es, k)
                <==> lowered <= c.streams[k].window - got + Refused(es, k))
            && (lowered <= 0 ==> Taken(es + [Take(k, want)], k) <= c.InitialWindow() + StreamCredit(es, k))
            && (c.IsActive(k) ==> lowered == 0)
  {
    var fs := es + [Take(k, want)];
    assert fs[..|fs| - 1] == es && fs[|fs| - 1] == Take(k, want);
    StreamCreditLaw(es, k);
    MissedIsChange(es, k);
  }

  /** Whoever finishes a stream, and however, its body writer gets the same credit as before. */
  lemma FinishedStreamsStillTake(c: Conn, e: Event, k: nat, want: uint32)
    requires Inv(c) && e.Valid() && k < |c.streams|
    requires e.Close? || e.Cancel? || e.EndStream? || e.RstStream? || e.RemoteGoAway? || e.LocalGoAway?
    ensures c.Next(e).Got(k, want) == c.Got(k, want)
  {
  }

  const LOWER := Settings([Setting(INITIAL_WINDOW_SIZE, 0)])

  /** One stream, ended by the peer, under the given initial window. */
  function Ended(initial: uint32): Conn {
    Conn(DEFAULT_PEER[INITIAL_WINDOW_SIZE := initial], 65535, [Stream(1, 65535, true, false, 1)], map[],
         1, false, false)
  }

  lemma EndedThenLowered()
    ensures INITIAL.Next(Open).Next(EndStream(1)) == Ended(65535)
    ensures Ended(65535).Next(LOWER) == Ended(0)
  {
    OpenThenFill();
    var c := Ended(65535);
    assert OneStream(65535, 65535).With(0, Stream(1, 65535, true, false, 1)).active == c.active;
    assert DEFAULT_PEER[INITIAL_WINDOW_SIZE := 65535] == DEFAULT_PEER;
    assert c.Apply(LOWER.ss[0]).streams == c.streams;
    assert LOWER.ss[1..] == [];
    assert c.ApplyAll(LOWER.ss) == c.Apply(LOWER.ss[0]).ApplyAll([]);
  }

  lemma EndedRun()
    ensures Events([Open, EndStream(1)]) && Run([Open, EndStream(1)]) == Ended(65535)
    ensures Taken([Open, EndStream(1)], 0) == 0 && StreamCredit([Open, EndStream(1)], 0) == 0
    ensures Refused([Open, EndStream(1)], 0) == 0
  {
    EndedThenLowered();
    RunStep([], Open);
    LedgerStep([], Open, 0);
    assert [] + [Open] == [Open];
    RunStep([Open], EndStream(1));
    LedgerStep([Open], EndStream(1), 0);
    assert [Open] + [EndStream(1)] == [Open, EndStream(1)];
  }

  /**
   * takeOutflow does not look at `done`. The peer ends a stream and lowers the initial window to
   * zero; the body writer still takes 65535 bytes where the window in force grants none.
   */
  lemma FinishedStreamOverdraws() returns (es: seq<Event>)
    ensures Events(es) && |Run(es).streams| == 1 && Run(es).streams[0].done
    ensures Run(es).InitialWindow() + StreamCredit(es, 0) == 0
    ensures Run(es).Got(0, 65535) == 65535 && Missed(es, 0) == -65535
  {
    EndedRun();
    EndedThenLowered();
    var before := [Open, EndStream(1)];
    RunStep(before, LOWER);
    LedgerStep(before, LOWER, 0);
    NothingRefusedByFinished(Ended(65535), LOWER.ss[0]);
    es := before + [LOWER];
    assert Run(es) == Ended(0);
    StreamCreditLaw(es, 0);
  }

  /**
   * A lowered initial window is never refused: in every reachable state, whatever increases were
   * refused before, every active window can go down by the whole difference and stays in int32.
   */
  lemma DecreaseNeverRefused(es: seq<Event>, k: nat, val: uint32)
    requires Events(es) && k < |Run(es).streams| && Run(es).IsActive(k)
    requires val <= Run(es).InitialWindow()
    ensures var c, s := Run(es), Setting(INITIAL_WINDOW_SIZE, val);
            && s.Acceptable()
            && c.Apply(s).streams[k].window == c.streams[k].window - (c.InitialWindow() - val)
            && -0x8000_0000 < c.Apply(s).streams[k].window
  {
  }

  /** An increase is refused exactly when the raised window would pass 2^31-1, and then the stream keeps its window. */
  lemma IncreaseRefusedExactly(es: seq<Event>, k: nat, val: uint32)
    requires Events(es) && k < |Run(es).streams| && Run(es).IsActive(k)
    requires Run(es).InitialWindow() < val <= MAX_INT32
    ensures var c, s := Run(es), Setting(INITIAL_WINDOW_SIZE, val);
            && s.Acceptable()
            && (RefusedEntry(c, s, k) > 0 <==> c.streams[k].window > MAX_INT32 - (val - c.InitialWindow()))
            && (RefusedEntry(c, s, k) > 0 <==> c.Apply(s).streams[k] == c.streams[k])
  {
  }

  // ----- SETTINGS frames as a whole

  predicate AllAcceptable(ss: seq<Setting>) {
    forall i :: 0 <= i < |ss| ==> ss[i].Acceptable()
  }

  /** The value the last entry for `id` sets, or `was`. */
  function LastValue(ss: seq<Setting>, id: nat, was: uint32): uint32 {
    if ss == [] then was
    else if ss[|ss| - 1].id == id then ss[|ss| - 1].val
    else LastValue(ss[..|ss| - 1], id, was)
  }

  lemma {:induction false} LastValueFromFront(ss: seq<Setting>, id: nat, was: uint32)
    requires ss != []
    ensures LastValue(ss, id, was) == LastValue(ss[1..], id, if ss[0].id == id then ss[0].val else was)
  {
    if |ss| > 1 {
      LastValueFromFront(ss[..|ss| - 1], id, was);
      assert ss[1..][..|ss| - 2] == ss[..|ss| - 1][1..];
    } else {
      assert ss[..0] == [] && ss[1..] == [];
    }
  }

  /**
   * A frame is refused, and the connection with it, exactly when some entry is not acceptable;
   * otherwise every known setting ends at the last value given for it, and unknown ones change nothing.
   */
  lemma {:induction false} SettingsApplied(c: Conn, ss: seq<Setting>, id: nat)
    requires Inv(c) && !c.goneAway && id < 8
    ensures var d := c.ApplyAll(ss);
            && d.WellFormed()
            && (d.closing <==> c.closing || !AllAcceptable(ss))
            && (AllAcceptable(ss) ==> d.peer[id] == if 1 <= id <= 6 then LastValue(ss, id, c.peer[id]) else c.peer[id])
    decreases |ss|
  {
    if ss != [] {
      LastValueFromFront(ss, id, c.peer[id]);
      assert forall i :: 0 <= i < |ss[1..]| ==> ss[1..][i] == ss[i + 1];
      if ss[0].Acceptable() {
        ApplyKeeps(c, ss[0]);
        SettingsApplied(c.Apply(ss[0]), ss[1..], id);
        assert AllAcceptable(ss) <==> AllAcceptable(ss[1..]) by {
          assert forall i :: 1 <= i < |ss| ==> ss[i] == ss[1..][i - 1];
        }
      }
    }
  }

  // ----- an overflowing increase

  function OneStream(window: int32, initial: uint32): Conn {
    Conn(DEFAULT_PEER[INITIAL_WINDOW_SIZE := initial], 65535, [Stream(1, window, false, false, 0)], map[1 := 0],
         1, false, false)
  }

  const FILL := Event.WindowUpdate(1, MAX_INT32 - 65535)
  const RAISE := Settings([Setting(INITIAL_WINDOW_SIZE, 65536)])

  lemma FilledStream()
    ensures Events([Open, FILL]) && Run([Open, FILL]) == OneStream(MAX_INT32, 65535)
  {
    OpenThenFill();
    RunStep([], Open);
    assert [] + [Open] == [Open];
    RunStep([Open], FILL);
    assert [Open] + [FILL] == [Open, FILL];
  }

  lemma OpenThenFill()
    ensures INITIAL.Next(Open) == OneStream(65535, 65535)
    ensures OneStream(65535, 65535).Next(FILL) == OneStream(MAX_INT32, 65535)
  {
    assert OneStream(65535, 65535).WindowUpdate(1, MAX_INT32 - 65535).streams == OneStream(MAX_INT32, 65535).streams;
  }

  lemma RaisedStream()
    ensures OneStream(MAX_INT32, 65535).Next(RAISE) == OneStream(MAX_INT32, 65536)
    ensures RefusedBy(OneStream(MAX_INT32, 65535), RAISE, 0) == 1
  {
    var c := OneStream(MAX_INT32, 65535);
    assert c.Apply(RAISE.ss[0]).streams == c.streams;
    assert RAISE.ss[1..] == [] && RefusedEntry(c, RAISE.ss[0], 0) == 1;
    assert c.ApplyAll(RAISE.ss) == c.Apply(RAISE.ss[0]).ApplyAll([]);
    assert RefusedIn(c, RAISE.ss, 0) == 1 + RefusedIn(c.Apply(RAISE.ss[0]), [], 0);
  }

  /**
   * Section 6.9.2 asks for a connection error when a new initial window overflows a stream window.
   * The client only leaves the window as it was: here is a run that does so and stays open.
   */
  lemma OverflowingIncreaseIsSilent() returns (es: seq<Event>)
    ensures Events(es) && !Run(es).goneAway
    ensures |Run(es).streams| == 1 && Run(es).IsActive(0) && Run(es).InitialWindow() == 65536
    ensures Refused(es, 0) > 0 && Run(es).streams[0].window == MAX_INT32
  {
    FilledStream();
    RaisedStream();
    RunStep([Open, FILL], RAISE);
    es := [Open, FILL, RAISE];
    assert [Open, FILL] + [RAISE] == es;
    assert Run(es) == OneStream(MAX_INT32, 65536);
    StreamOffsetLaw([Open, FILL], 0);
    assert es[..2] == [Open, FILL];
  }
}
