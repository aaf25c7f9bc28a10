/**
 * The connection pool as a step system: a ticket channel bounding connections, a queue of idle
 * ones, and any number of threads connecting, dialing, releasing and closing. A channel operation
 * is one step; one that would block leaves the state unchanged.
 */
module PoolModel {

  /**
   * Where a connection state is: held by a session, queued, taken by a Connect that inspects it,
   * being closed until its ticket is returned, closed, or lost to everyone.
   */
  datatype Phase = InUse(sid: nat) | Idle | Taken | Closing | Closed | Lost

  /** `shut` is the flag IsClosed; `closes` counts the calls of Close. */
  datatype Conn = Conn(phase: Phase, shut: bool, closes: nat)
  {
    function Close(): Conn { Conn(Closing, true, closes + 1) }
  }

  /** `maxConn` 0 means no ticket channel. */
  datatype Config = Config(maxIdle: nat, maxConn: nat)

  /**
   * `holders` are the sessions that have not given up their connection, with its index in `conns`;
   * `dialing` counts Connects between taking a ticket and the end of Setup, `failed` those that
   * ended in an error.
   */
  datatype Pool = Pool(cfg: Config, tickets: nat, idle: seq<nat>, conns: seq<Conn>, holders: map<nat, nat>,
                       dialing: nat, failed: nat)

  datatype Event =
    | TakeIdle                             // receive from the idle queue
    | Inspect(c: nat, expired: bool, sid: nat)  // hand it to session `sid`, or close it
    | StartDial                            // take a ticket for a new connection
    | DialOk(sid: nat)                     // dial and Setup succeed, for session `sid`
    | DialFail
    | Release(sid: nat, close: bool)       // the session gives up its connection
    | HandOff(sid: nat)                    // the same, straight to a Connect waiting on the queue
    | FinishClose(c: nat)                  // Close receives a ticket

  function Start(cfg: Config): Pool {
    Pool(cfg, 0, [], [], map[], 0, 0)
  }

  function With(p: Pool, c: nat, k: Conn): Pool
    requires c < |p.conns|
  {
    p.(conns := p.conns[c := k])
  }

  function Move(p: Pool, c: nat, phase: Phase): Pool
    requires c < |p.conns|
  {
    With(p, c, p.conns[c].(phase := phase))
  }

  predicate TicketFree(p: Pool) {
    p.cfg.maxConn == 0 || p.tickets < p.cfg.maxConn
  }

  function Next(p: Pool, e: Event): Pool {
    match e
    case TakeIdle =>
      if p.idle == [] || p.idle[0] >= |p.conns| then p else Move(p, p.idle[0], Taken).(idle := p.idle[1..])
    case Inspect(c, expired, sid) =>
      if c >= |p.conns| || p.conns[c].phase != Taken || sid in p.holders then p
      else if expired then With(p, c, p.conns[c].Close())
      else if p.conns[c].shut then Move(p, c, Lost)
      else Move(p, c, InUse(sid)).(holders := p.holders[sid := c])
    case StartDial =>
      if !TicketFree(p) then p
      else p.(tickets := if p.cfg.maxConn == 0 then 0 else p.tickets + 1, dialing := p.dialing + 1)
    case DialOk(sid) =>
      if p.dialing == 0 || sid in p.holders then p
      else p.(dialing := p.dialing - 1, conns := p.conns + [Conn(InUse(sid), false, 0)],
              holders := p.holders[sid := |p.conns|])
    case DialFail =>
      if p.dialing == 0 then p else p.(dialing := p.dialing - 1, failed := p.failed + 1)
    case Release(sid, close) =>
      if sid !in p.holders || p.holders[sid] >= |p.conns| then p
      else
        var (c, q) := (p.holders[sid], p.(holders := p.holders - {sid}));
        if p.conns[c].shut then Move(q, c, Lost)
        else if close || |p.idle| >= p.cfg.maxIdle then With(q, c, p.conns[c].Close())
        else Move(q, c, Idle).(idle := p.idle + [c])
    case HandOff(sid) =>
      if sid !in p.holders || p.holders[sid] >= |p.conns| || p.conns[p.holders[sid]].shut then p
      else Move(p.(holders := p.holders - {sid}), p.holders[sid], Taken)
    case FinishClose(c) =>
      if c >= |p.conns| || p.conns[c].phase != Closing || (p.cfg.maxConn != 0 && p.tickets == 0) then p
      else Move(p, c, Closed).(tickets := if p.cfg.maxConn == 0 then 0 else p.tickets - 1)
  }

  ghost function Run(cfg: Config, es: seq<Event>): Pool {
    if es == [] then Start(cfg) else Next(Run(cfg, es[..|es| - 1]), es[|es| - 1])
  }

  /** Connections that are open or not yet fully closed. */
  function Live(conns: seq<Conn>): nat {
    if conns == [] then 0
    else Live(conns[..|conns| - 1]) + if conns[|conns| - 1].phase == Closed then 0 else 1
  }

  lemma {:induction false} LiveUpdate(conns: seq<Conn>, c: nat, k: Conn)
    requires c < |conns|
    ensures Live(conns[c := k]) == Live(conns) - (if conns[c].phase == Closed then 0 else 1)
              + (if k.phase == Closed then 0 else 1)
  {
    var d := conns[c := k];
    if c == |conns| - 1 {
      assert d[..c] == conns[..c];
    } else {
      LiveUpdate(conns[..|conns| - 1], c, k);
      assert d[..|d| - 1] == conns[..|conns| - 1][c := k];
    }
  }

  lemma LiveAppend(conns: seq<Conn>, k: Conn)
    ensures Live(conns + [k]) == Live(conns) + if k.phase == Closed then 0 else 1
  {
    assert (conns + [k])[..|conns|] == conns;
  }

  ghost predicate ConnOk(k: Conn) {
    && (k.shut <==> k.phase == Closing || k.phase == Closed)
    && k.closes == (if k.shut then 1 else 0)
    && k.phase != Lost
  }

  /** Everything the steps keep. */
  ghost predicate Inv(p: Pool) {
    Counted(p) && Queued(p) && Held(p) && AllOk(p.conns)
  }

  ghost predicate AllOk(conns: seq<Conn>) {
    forall c :: 0 <= c < |conns| ==> ConnOk(conns[c])
  }

  /** Tickets are held by live connections, dials under way, and failed dials. */
  ghost predicate Counted(p: Pool) {
    p.cfg.maxConn != 0 ==> p.tickets <= p.cfg.maxConn && p.tickets == Live(p.conns) + p.dialing + p.failed
  }

  /** The queue holds the idle connections, each once, and no more than it may. */
  ghost predicate Queued(p: Pool) {
    && |p.idle| <= p.cfg.maxIdle
    && (forall i :: 0 <= i < |p.idle| ==> p.idle[i] < |p.conns| && p.conns[p.idle[i]].phase == Idle)
    && (forall i, j :: 0 <= i < j < |p.idle| ==> p.idle[i] != p.idle[j])
    && (forall c :: 0 <= c < |p.conns| && p.conns[c].phase == Idle ==> c in p.idle)
  }

  /** A session holds a connection exactly if the connection is in use by that session. */
  ghost predicate Held(p: Pool) {
    && (forall s :: s in p.holders ==> p.holders[s] < |p.conns| && p.conns[p.holders[s]].phase == InUse(s))
    && (forall c :: 0 <= c < |p.conns| && p.conns[c].phase.InUse? ==>
          p.conns[c].phase.sid in p.holders && p.holders[p.conns[c].phase.sid] == c)
  }

  // One connection changes; what the queue and the holders say stays true.

  /** The number of live connections moves with the tickets. */
  lemma CountedMove(p: Pool, q: Pool, c: nat, k: Conn)
    requires Counted(p) && AllOk(p.conns) && c < |p.conns| && p.conns[c].phase != Closed && ConnOk(k)
    requires q.cfg == p.cfg && q.dialing == p.dialing && q.failed == p.failed && q.conns == p.conns[c := k]
    requires p.cfg.maxConn != 0 ==> q.tickets == p.tickets - if k.phase == Closed then 1 else 0
    ensures Counted(q) && AllOk(q.conns)
  {
    LiveUpdate(p.conns, c, k);
  }

  lemma QueuedUnchanged(p: Pool, q: Pool, c: nat, k: Conn)
    requires Queued(p) && c < |p.conns| && p.conns[c].phase != Idle && k.phase != Idle
    requires q.cfg == p.cfg && q.idle == p.idle && q.conns == p.conns[c := k]
    ensures Queued(q)
  {
  }

  lemma QueuedPop(p: Pool, q: Pool, k: Conn)
    requires Queued(p) && p.idle != [] && k.phase != Idle
    requires q.cfg == p.cfg && q.idle == p.idle[1..] && q.conns == p.conns[p.idle[0] := k]
    ensures Queued(q)
  {
    forall d | 0 <= d < |q.conns| && q.conns[d].phase == Idle ensures d in q.idle {
      assert d in p.idle && d != p.idle[0];
    }
  }

  lemma QueuedPush(p: Pool, q: Pool, c: nat, k: Conn)
    requires Queued(p) && c < |p.conns| && p.conns[c].phase != Idle && k.phase == Idle && |p.idle| < p.cfg.maxIdle
    requires q.cfg == p.cfg && q.idle == p.idle + [c] && q.conns == p.conns[c := k]
    ensures Queued(q)
  {
    assert q.idle[|p.idle|] == c;
    forall d | 0 <= d < |q.conns| && q.conns[d].phase == Idle ensures d in q.idle {
      assert d == c || d in p.idle;
    }
  }

  lemma HeldUnchanged(p: Pool, q: Pool, c: nat, k: Conn)
    requires Held(p) && c < |p.conns| && !p.conns[c].phase.InUse? && !k.phase.InUse?
    requires q.holders == p.holders && q.conns == p.conns[c := k]
    ensures Held(q)
  {
  }

  lemma HeldGrant(p: Pool, q: Pool, c: nat, k: Conn, sid: nat)
    requires Held(p) && c < |p.conns| && !p.conns[c].phase.InUse? && k.phase == InUse(sid) && sid !in p.holders
    requires q.holders == p.holders[sid := c] && q.conns == p.conns[c := k]
    ensures Held(q)
  {
  }

  lemma HeldDrop(p: Pool, q: Pool, c: nat, k: Conn, sid: nat)
    requires Held(p) && sid in p.holders && p.holders[sid] == c && !k.phase.InUse?
    requires q.holders == p.holders - {sid} && q.conns == p.conns[c := k]
    ensures Held(q)
  {
  }

  lemma TakeIdleKeeps(p: Pool)
    requires Inv(p)
    ensures Inv(Next(p, TakeIdle))
  {
    if p.idle != [] {
      var (q, c) := (Next(p, TakeIdle), p.idle[0]);
      var k := p.conns[c].(phase := Taken);
      CountedMove(p, q, c, k);
      QueuedPop(p, q, k);
      HeldUnchanged(p, q, c, k);
    }
  }

  lemma InspectKeeps(p: Pool, e: Event)
    requires Inv(p) && e.Inspect?
    ensures Inv(Next(p, e))
  {
    var q := Next(p, e);
    if q != p {
      var k := q.conns[e.c];
      CountedMove(p, q, e.c, k);
      QueuedUnchanged(p, q, e.c, k);
      if e.expired {
        HeldUnchanged(p, q, e.c, k);
      } else {
        HeldGrant(p, q, e.c, k, e.sid);
      }
    }
  }

  lemma HeldNew(p: Pool, q: Pool, k: Conn, sid: nat)
    requires Held(p) && k.phase == InUse(sid) && sid !in p.holders
    requires q.holders == p.holders[sid := |p.conns|] && q.conns == p.conns + [k]
    ensures Held(q)
  {
  }

  lemma QueuedNew(p: Pool, q: Pool, k: Conn)
    requires Queued(p) && k.phase != Idle && q.cfg == p.cfg && q.idle == p.idle && q.conns == p.conns + [k]
    ensures Queued(q)
  {
  }

  lemma DialOkKeeps(p: Pool, sid: nat)
    requires Inv(p)
    ensures Inv(Next(p, DialOk(sid)))
  {
    if p.dialing > 0 && sid !in p.holders {
      var (q, k) := (Next(p, DialOk(sid)), Conn(InUse(sid), false, 0));
      LiveAppend(p.conns, k);
      HeldNew(p, q, k, sid);
      QueuedNew(p, q, k);
    }
  }

  lemma DialKeeps(p: Pool, e: Event)
    requires Inv(p) && (e.StartDial? || e.DialFail?)
    ensures Inv(Next(p, e))
  {
  }

  lemma ReleaseKeeps(p: Pool, e: Event)
    requires Inv(p) && (e.Release? || e.HandOff?)
    ensures Inv(Next(p, e))
  {
    var q := Next(p, e);
    if e.sid in p.holders {
      var c := p.holders[e.sid];
      var k := q.conns[c];
      CountedMove(p, q, c, k);
      HeldDrop(p, q, c, k, e.sid);
      if k.phase == Idle {
        QueuedPush(p, q, c, k);
      } else {
        QueuedUnchanged(p, q, c, k);
      }
    }
  }

  lemma FinishCloseKeeps(p: Pool, e: Event)
    requires Inv(p) && e.FinishClose?
    ensures Inv(Next(p, e))
  {
    var q := Next(p, e);
    if q != p {
      var k := q.conns[e.c];
      CountedMove(p, q, e.c, k);
      QueuedUnchanged(p, q, e.c, k);
      HeldUnchanged(p, q, e.c, k);
    }
  }

  lemma NextKeeps(p: Pool, e: Event)
    requires Inv(p)
    ensures Inv(Next(p, e))
  {
    match e
    case TakeIdle => TakeIdleKeeps(p);
    case Inspect(_, _, _) => InspectKeeps(p, e);
    case Release(_, _) => ReleaseKeeps(p, e);
    case HandOff(_) => ReleaseKeeps(p, e);
    case FinishClose(_) => FinishCloseKeeps(p, e);
    case DialOk(sid) => DialOkKeeps(p, sid);
    case _ => DialKeeps(p, e);
  }

  lemma {:induction false} AlwaysInv(cfg: Config, es: seq<Event>)
    ensures Inv(Run(cfg, es)) && Run(cfg, es).cfg == cfg
  {
    if es != [] {
      AlwaysInv(cfg, es[..|es| - 1]);
      NextKeeps(Run(cfg, es[..|es| - 1]), es[|es| - 1]);
    }
  }

  // ----- what holds in every run

  /**
   * Pool safety. The tickets held are the live connections, the dials under way and the failed
   * dials, so live connections never exceed `maxConn` when it is not zero; idle ones never exceed
   * `maxIdle`; nothing is closed twice; and a connection is held by one session at most, by the one
   * that it is in use by.
   */
  lemma PoolSafety(cfg: Config, es: seq<Event>)
    ensures var p := Run(cfg, es);
            && (cfg.maxConn != 0 ==> p.tickets == Live(p.conns) + p.dialing + p.failed)
            && (cfg.maxConn != 0 ==> Live(p.conns) + p.dialing + p.failed <= cfg.maxConn)
            && |p.idle| <= cfg.maxIdle
            && (forall c :: 0 <= c < |p.conns| ==> p.conns[c].closes <= 1 && p.conns[c].phase != Lost)
            && (forall s, t :: s in p.holders && t in p.holders && s != t ==> p.holders[s] != p.holders[t])
  {
    AlwaysInv(cfg, es);
    assert Held(Run(cfg, es));
  }

  /** The receive in Close never blocks: whenever a connection is being closed, its ticket is there. */
  lemma CloseNeverBlocks(cfg: Config, es: seq<Event>, c: nat)
    requires c < |Run(cfg, es).conns| && Run(cfg, es).conns[c].phase == Closing
    ensures Next(Run(cfg, es), FinishClose(c)).conns[c].phase == Closed
    ensures cfg.maxConn != 0 ==> Next(Run(cfg, es), FinishClose(c)).tickets == Run(cfg, es).tickets - 1
  {
    AlwaysInv(cfg, es);
    LiveOne(Run(cfg, es).conns, c);
  }

  lemma {:induction false} LiveOne(conns: seq<Conn>, c: nat)
    requires c < |conns| && conns[c].phase != Closed
    ensures Live(conns) >= 1
  {
    if c < |conns| - 1 {
      LiveOne(conns[..|conns| - 1], c);
    }
  }

  // ----- failed dials

  /** A run of failed dials, each keeping its ticket. */
  ghost function FailedDials(n: nat): seq<Event> {
    if n == 0 then [] else FailedDials(n - 1) + [StartDial, DialFail]
  }

  lemma {:induction false} FailuresKeepTickets(cfg: Config, n: nat)
    requires n <= cfg.maxConn
    ensures Run(cfg, FailedDials(n)) == Start(cfg).(tickets := n, failed := n)
    ensures n > 0 ==> cfg.maxConn != 0
  {
    if n > 0 {
      FailuresKeepTickets(cfg, n - 1);
      var (before, es) := (FailedDials(n - 1), FailedDials(n));
      var mid := before + [StartDial];
      assert mid[..|mid| - 1] == before && es[..|es| - 1] == mid;
    }
  }

  lemma Extend(cfg: Config, es: seq<Event>, e: Event) returns (end: seq<Event>)
    ensures es <= end && Run(cfg, end) == Next(Run(cfg, es), e)
  {
    end := es + [e];
    assert end[..|es|] == es;
  }

  lemma FailedNeverFalls(p: Pool, e: Event)
    ensures p.failed <= Next(p, e).failed
  {
  }

  lemma {:induction false} FailuresStay(cfg: Config, es: seq<Event>, end: seq<Event>)
    requires es <= end
    ensures Run(cfg, es).failed <= Run(cfg, end).failed
    decreases |end|
  {
    if es != end {
      FailuresStay(cfg, es, end[..|end| - 1]);
      FailedNeverFalls(Run(cfg, end[..|end| - 1]), end[|end| - 1]);
    }
  }

  lemma NobodyHolds(p: Pool)
    requires Inv(p) && p.cfg.maxConn != 0 && p.failed >= p.cfg.maxConn
    ensures p.holders == map[] && !TicketFree(p) && p.failed == p.cfg.maxConn
  {
    if p.holders != map[] {
      var s :| s in p.holders;
      LiveOne(p.conns, p.holders[s]);
      assert false;
    }
  }

  /**
   * Because a failed dial keeps its ticket, `maxConn` failures starve the pool: in no continuation
   * does any session ever hold a connection again. This many failures are always possible.
   */
  lemma StarvedForEver(cfg: Config, es: seq<Event>, fs: seq<Event>)
    requires cfg.maxConn != 0 && Run(cfg, es).failed == cfg.maxConn
    ensures Run(cfg, es + fs).failed == cfg.maxConn && Run(cfg, es + fs).holders == map[]
              && !TicketFree(Run(cfg, es + fs))
  {
    FailuresStay(cfg, es, es + fs);
    AlwaysInv(cfg, es + fs);
    NobodyHolds(Run(cfg, es + fs));
  }

  lemma StarvationIsReachable(cfg: Config) returns (es: seq<Event>)
    requires cfg.maxConn != 0
    ensures Run(cfg, es).failed == cfg.maxConn
  {
    FailuresKeepTickets(cfg, cfg.maxConn);
    es := FailedDials(cfg.maxConn);
  }

  // Short of that, any session can get a connection. `sid` holds none in `es`; `end` continues it.

  lemma {:induction false} SomeLive(conns: seq<Conn>) returns (c: nat)
    requires Live(conns) > 0
    ensures c < |conns| && conns[c].phase != Closed
  {
    c := |conns| - 1;
    if conns[c].phase == Closed {
      c := SomeLive(conns[..c]);
    }
  }

  lemma ServeByDial(cfg: Config, es: seq<Event>, sid: nat) returns (end: seq<Event>)
    requires sid !in Run(cfg, es).holders && (Run(cfg, es).dialing > 0 || TicketFree(Run(cfg, es)))
    ensures es <= end && sid in Run(cfg, end).holders
  {
    end := es;
    if Run(cfg, es).dialing == 0 {
      end := Extend(cfg, es, StartDial);
    }
    end := Extend(cfg, end, DialOk(sid));
  }

  lemma ServeTaken(cfg: Config, es: seq<Event>, sid: nat, c: nat) returns (end: seq<Event>)
    requires sid !in Run(cfg, es).holders && c < |Run(cfg, es).conns| && Run(cfg, es).conns[c].phase == Taken
    ensures es <= end && sid in Run(cfg, end).holders
  {
    AlwaysInv(cfg, es);
    assert ConnOk(Run(cfg, es).conns[c]);
    end := Extend(cfg, es, Inspect(c, false, sid));
  }

  lemma TakeFromUser(cfg: Config, es: seq<Event>, sid: nat, t: nat) returns (end: seq<Event>)
    requires sid !in Run(cfg, es).holders && t in Run(cfg, es).holders
    ensures es <= end && sid in Run(cfg, end).holders
  {
    AlwaysInv(cfg, es);
    var c := Run(cfg, es).holders[t];
    assert ConnOk(Run(cfg, es).conns[c]);
    end := Extend(cfg, es, HandOff(t));
    end := ServeTaken(cfg, end, sid, c);
  }

  lemma TakeFromQueue(cfg: Config, es: seq<Event>, sid: nat) returns (end: seq<Event>)
    requires sid !in Run(cfg, es).holders && Run(cfg, es).idle != []
    ensures es <= end && sid in Run(cfg, end).holders
  {
    AlwaysInv(cfg, es);
    var c := Run(cfg, es).idle[0];
    end := Extend(cfg, es, TakeIdle);
    end := ServeTaken(cfg, end, sid, c);
  }

  /** A connection that is being closed gives its ticket to a new dial. */
  lemma TakeTicket(cfg: Config, es: seq<Event>, sid: nat, c: nat) returns (end: seq<Event>)
    requires sid !in Run(cfg, es).holders && c < |Run(cfg, es).conns| && Run(cfg, es).conns[c].phase == Closing
    ensures es <= end && sid in Run(cfg, end).holders
  {
    AlwaysInv(cfg, es);
    LiveOne(Run(cfg, es).conns, c);
    end := Extend(cfg, es, FinishClose(c));
    AlwaysInv(cfg, end);
    end := ServeByDial(cfg, end, sid);
  }

  /** Some connection is live: it is taken over from its user, from the queue, or replaced. */
  lemma ServeFromLive(cfg: Config, es: seq<Event>, sid: nat, c: nat) returns (end: seq<Event>)
    requires sid !in Run(cfg, es).holders && c < |Run(cfg, es).conns| && Run(cfg, es).conns[c].phase != Closed
    ensures es <= end && sid in Run(cfg, end).holders
  {
    AlwaysInv(cfg, es);
    assert ConnOk(Run(cfg, es).conns[c]);
    match Run(cfg, es).conns[c].phase
    case InUse(t) => end := TakeFromUser(cfg, es, sid, t);
    case Idle => end := TakeFromQueue(cfg, es, sid);
    case Taken => end := ServeTaken(cfg, es, sid, c);
    case Closing => end := TakeTicket(cfg, es, sid, c);
  }

  lemma Serve(cfg: Config, es: seq<Event>, sid: nat) returns (end: seq<Event>)
    requires cfg.maxConn == 0 || Run(cfg, es).failed < cfg.maxConn
    ensures es <= end && sid in Run(cfg, end).holders
  {
    AlwaysInv(cfg, es);
    var p := Run(cfg, es);
    if sid in p.holders {
      end := es;
    } else if p.dialing > 0 || TicketFree(p) {
      end := ServeByDial(cfg, es, sid);
    } else {
      var c := SomeLive(p.conns);
      end := ServeFromLive(cfg, es, sid, c);
    }
  }

  /**
   * Exactly when the pool is starved: in every reachable state, every session can still come to
   * hold a connection if and only if fewer than `maxConn` dials have failed, or there is no limit.
   */
  lemma ServedExactly(cfg: Config, es: seq<Event>, sid: nat)
    ensures (exists fs :: sid in Run(cfg, es + fs).holders) <==> cfg.maxConn == 0 || Run(cfg, es).failed < cfg.maxConn
  {
    if cfg.maxConn == 0 || Run(cfg, es).failed < cfg.maxConn {
      var end := Serve(cfg, es, sid);
      assert es + end[|es|..] == end;
    } else {
      AlwaysInv(cfg, es);
      NobodyHolds(Run(cfg, es));
      forall fs ensures sid !in Run(cfg, es + fs).holders {
        StarvedForEver(cfg, es, fs);
      }
    }
  }
}
