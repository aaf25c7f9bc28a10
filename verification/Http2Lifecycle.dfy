/** Stream ids, the active map, release and the concurrency limit (RFC 9113, sections 5.1.1 and 5.1.2). */
module Http2Lifecycle {
  import opened Words
  import opened Http2Model
  import opened Http2Credit

  /**
   * Ids are odd, and strictly increasing in the order of assignment until 2^31 streams were
   * opened. They fit the 31 bits of a stream id exactly for the first 2^30 streams; the source
   * does not check that bound.
   */
  lemma IdsIncrease(es: seq<Event>, k: nat)
    requires Events(es) && k < |Run(es).streams|
    ensures var s := Run(es).streams;
            && s[k].id % 2 == 1
            && (k < ID_SPACE ==> forall j :: 0 <= j < k ==> s[j].id < s[k].id)
            && (k < ID_SPACE ==> (s[k].id <= MAX_INT32 <==> k < 0x4000_0000))
  {
    if k < ID_SPACE {
      IdsBelowWrap(es, k);
    } else {
      IdOfStream(es, k);
      OddAfterTruncation(k);
    }
  }

  lemma IdsBelowWrap(es: seq<Event>, k: nat)
    requires Events(es) && k < |Run(es).streams| && k < ID_SPACE
    ensures forall j :: 0 <= j <= k ==> Run(es).streams[j].id == 2 * j + 1
  {
    forall j | 0 <= j <= k ensures Run(es).streams[j].id == 2 * j + 1 {
      IdOfStream(es, j);
      IdOfBelowWrap(j);
    }
  }

  lemma IdOfStream(es: seq<Event>, k: nat)
    requires Events(es) && k < |Run(es).streams|
    ensures Run(es).streams[k].id == IdOf(k)
  {
    assert StreamOk(Run(es).streams[k], k);
  }

  lemma OddAfterTruncation(k: nat)
    ensures IdOf(k) % 2 == 1
  {
    TruncationIsResidue(2 * k + 1);
    var q := (2 * k + 1) / TWO_32;
    assert IdOf(k) == 2 * (k - q * 0x8000_0000) + 1;
  }

  lemma OpenThenClose(c: Conn)
    requires Inv(c) && c.active == map[] && c.StreamLimit() > 0
    ensures var (n, d) := (|c.streams|, c.Next(Open).Next(Close(|c.streams|)));
            |d.streams| == n + 1 && d.active == map[] && d.peer == c.peer
  {
    OpenAdds(c);
    assert c.active[IdOf(|c.streams|) := |c.streams|] - {IdOf(|c.streams|)} == map[];
  }

  /** A run of `n` streams, all finished, under the peer's default settings. */
  ghost predicate Spent(es: seq<Event>, n: nat) {
    Events(es) && |Run(es).streams| == n && Run(es).active == map[] && Run(es).peer == DEFAULT_PEER
  }

  lemma OneMore(es: seq<Event>, n: nat)
    requires Spent(es, n)
    ensures Spent(es + [Open] + [Close(n)], n + 1)
  {
    RunStep(es, Open);
    RunStep(es + [Open], Close(n));
    OpenThenClose(Run(es));
  }

  lemma {:induction false} OneByOne(n: nat) returns (es: seq<Event>)
    ensures Spent(es, n)
  {
    if n == 0 {
      es := [];
    } else {
      var before := OneByOne(n - 1);
      OneMore(before, n - 1);
      es := before + [Open] + [Close(n - 1)];
    }
  }

  lemma IdsRepeat(k: nat)
    ensures IdOf(k + ID_SPACE) == IdOf(k)
  {
    TruncationIsPeriodic(2 * k + 1, 1);
  }

  lemma SameIdAfterWrap(es: seq<Event>, k: nat)
    requires Events(es) && k + ID_SPACE < |Run(es).streams|
    ensures Run(es).streams[k + ID_SPACE].id == Run(es).streams[k].id
  {
    IdOfStream(es, k);
    IdOfStream(es, k + ID_SPACE);
    IdsRepeat(k);
  }

  /**
   * Nothing stops a client at either bound: for any `k` there is a run in which the stream opened
   * after the first 2^30 has an id outside 31 bits, and the 2^31-th after stream `k` has the id of `k`.
   */
  lemma IdsWrap(k: nat) returns (es: seq<Event>)
    ensures Events(es) && k + ID_SPACE < |Run(es).streams|
    ensures Run(es).streams[k + ID_SPACE].id == Run(es).streams[k].id
    ensures Run(es).streams[0x4000_0000].id > MAX_INT32
  {
    es := OneByOne(k + ID_SPACE + 1);
    SameIdAfterWrap(es, k);
    IdsIncrease(es, 0x4000_0000);
  }

  /** A stream keeps the id it was assigned, in every continuation. */
  lemma {:induction false} IdsAreKept(es: seq<Event>, fs: seq<Event>, k: nat)
    requires Events(es + fs) && Events(es) && k < |Run(es).streams|
    ensures k < |Run(es + fs).streams|
    ensures Run(es + fs).streams[k].id == Run(es).streams[k].id
    ensures Run(es).streams[k].done ==> Run(es + fs).streams[k].done
    ensures Run(es).streams[k].reset ==> Run(es + fs).streams[k].reset
    decreases |fs|
  {
    if fs == [] {
      assert es + fs == es;
    } else {
      var gs := fs[..|fs| - 1];
      var e := fs[|fs| - 1];
      assert es + fs == es + gs + [e];
      assert forall i :: 0 <= i < |es + gs| ==> (es + gs)[i] == (es + fs)[i];
      IdsAreKept(es, gs, k);
      assert e == (es + fs)[|es + gs|] && e.Valid();
      RunStep(es + gs, e);
      NextStreams(Run(es + gs), e, k);
      FinalStates(Run(es + gs), e, k);
    }
  }

  lemma FinalStates(c: Conn, e: Event, k: nat)
    requires c.WellFormed() && e.Valid() && k < |c.streams|
    requires |c.streams| <= |c.Next(e).streams|
    ensures c.streams[k].done ==> c.Next(e).streams[k].done
    ensures c.streams[k].reset ==> c.Next(e).streams[k].reset
  {
    match e
    case Settings(ss) => ApplyAllFrame(c, ss);
    case _ =>
  }

  /** The active map holds exactly the streams that were assigned and are not done, each under its own id. */
  lemma ActiveIsAssignedAndNotDone(es: seq<Event>, id: uint32)
    requires Events(es) && |Run(es).streams| <= ID_SPACE
    ensures var c := Run(es);
            && (id in c.active <==> exists k :: 0 <= k < |c.streams| && c.streams[k].id == id && !c.streams[k].done)
            && (id in c.active ==> c.streams[c.active[id]].id == id)
  {
    var c := Run(es);
    if k :| 0 <= k < |c.streams| && c.streams[k].id == id && !c.streams[k].done {
      assert c.IsActive(k);
    }
  }

  /** Stream `k` is told to finish by this event: closed or reset here, ended or reset by the peer, or cut by GOAWAY. */
  predicate Finishes(c: Conn, e: Event, k: nat)
    requires c.WellFormed() && k < |c.streams|
  {
    match e
    case Close(j) => j == k
    case Cancel(j) => j == k
    case EndStream(id) => !c.closing && id == c.streams[k].id && c.IsActive(k)
    case RstStream(id) => !c.closing && id == c.streams[k].id && c.IsActive(k)
    case RemoteGoAway(last) => !c.closing && !c.goneAway && last < c.streams[k].id && c.IsActive(k)
    case _ => false
  }

  /**
   * However finishing events interleave, ReleaseStreamID runs for a stream exactly once: at the
   * first of them. Afterwards the stream is done, out of the active map, and released once for good.
   */
  lemma ReleasedExactlyOnce(es: seq<Event>, e: Event, k: nat, fs: seq<Event>)
    requires Events(es) && e.Valid() && Events(fs) && k < |Run(es).streams| && Finishes(Run(es), e, k)
    ensures Run(es).streams[k].released == if Run(es).streams[k].done then 1 else 0
    ensures Events(es + [e] + fs) && k < |Run(es + [e] + fs).streams|
    ensures Run(es + [e] + fs).streams[k].done && Run(es + [e] + fs).streams[k].released == 1
    ensures !Run(es + [e] + fs).IsActive(k)
  {
    var gs := es + [e];
    assert gs[..|gs| - 1] == es && gs[|gs| - 1] == e;
    assert StreamOk(Run(es).streams[k], k);
    FinishedIsDone(Run(es), e, k);
    IdsAreKept(gs, fs, k);
    assert StreamOk(Run(gs + fs).streams[k], k);
  }

  /**
   * A stream that is cancelled, reset by the peer or cut by GOAWAY while it lives is marked reset;
   * one that ends or is closed is not.
   */
  lemma ResetExactly(c: Conn, e: Event, k: nat)
    requires Inv(c) && e.Valid() && k < |c.streams| && Finishes(c, e, k)
    ensures |c.streams| <= |c.Next(e).streams|
    ensures c.Next(e).streams[k].reset <==> c.streams[k].reset || e.Cancel? || e.RstStream? || e.RemoteGoAway?
  {
    assert StreamOk(c.streams[k], k);
  }

  lemma FinishedIsDone(c: Conn, e: Event, k: nat)
    requires Inv(c) && e.Valid() && k < |c.streams| && Finishes(c, e, k)
    ensures |c.streams| <= |c.Next(e).streams| && c.Next(e).streams[k].done
  {
    assert StreamOk(c.streams[k], k);
  }

  /** Streams a GOAWAY does not cut keep their place; nothing at or below its last id is touched. */
  lemma GoAwaySparesLower(c: Conn, last: uint32, k: nat)
    requires Inv(c) && k < |c.streams| && (c.streams[k].id <= last || c.goneAway)
    ensures c.RemoteGoAway(last).streams[k] == c.streams[k]
    ensures c.RemoteGoAway(last).IsActive(k) <==> c.IsActive(k)
  {
  }

  // ----- the concurrency limit

  /** The highest limit on concurrent streams that was in force at some point of the run. */
  ghost function HighestLimit(es: seq<Event>): nat
    requires Events(es)
  {
    if es == [] then INITIAL.StreamLimit()
    else
      var before := HighestLimit(es[..|es| - 1]);
      if before <= Run(es).StreamLimit() then Run(es).StreamLimit() else before
  }

  lemma OpenRespectsLimit(c: Conn)
    requires Inv(c)
    ensures |c.Open().active| > |c.active| ==> |c.Open().active| <= c.StreamLimit() == c.Open().StreamLimit()
    ensures |c.Open().active| <= |c.active| || |c.Open().active| == |c.active| + 1
    ensures |c.Open().streams| == if |c.active| < c.peer[3] then |c.streams| + 1 else |c.streams|
  {
  }

  lemma OthersDoNotAdd(c: Conn, e: Event)
    requires c.WellFormed() && e.Valid() && !e.Open?
    ensures |c.Next(e).active| <= |c.active|
  {
    var d := c.Next(e);
    match e {
      case Settings(ss) => ApplyAllFrame(c, ss);
      case _ =>
    }
    assert d.active.Keys <= c.active.Keys;
    SubsetIsNotLarger(d.active.Keys, c.active.Keys);
  }

  lemma {:induction false} SubsetIsNotLarger<T>(a: set<T>, b: set<T>)
    requires a <= b
    ensures |a| <= |b|
  {
    if a != {} {
      var x :| x in a;
      SubsetIsNotLarger(a - {x}, b - {x});
    }
  }

  /** The streams in progress never outnumber the highest limit the peer has set. */
  lemma {:induction false} ConcurrencyIsBounded(es: seq<Event>)
    requires Events(es)
    ensures |Run(es).active| <= HighestLimit(es)
  {
    if es != [] {
      var (c, e) := (Run(es[..|es| - 1]), es[|es| - 1]);
      ConcurrencyIsBounded(es[..|es| - 1]);
      if e.Open? {
        OpenRespectsLimit(c);
      } else {
        OthersDoNotAdd(c, e);
      }
    }
  }

  /** So a limit that does not change is an invariant. */
  lemma {:induction false} ConstantLimitHolds(es: seq<Event>, limit: uint32)
    requires Events(es)
    requires forall i :: 0 <= i <= |es| ==> Run(es[..i]).StreamLimit() == limit
    ensures |Run(es).active| <= limit
  {
    HighestIsConstant(es, limit);
    ConcurrencyIsBounded(es);
  }

  lemma {:induction false} HighestIsConstant(es: seq<Event>, limit: uint32)
    requires Events(es)
    requires forall i :: 0 <= i <= |es| ==> Run(es[..i]).StreamLimit() == limit
    ensures HighestLimit(es) == limit
  {
    assert es[..|es|] == es && es[..0] == [];
    assert Run(es[..|es|]).StreamLimit() == limit && Run(es[..0]).StreamLimit() == limit;
    if es != [] {
      var before := es[..|es| - 1];
      forall i | 0 <= i <= |before| ensures Run(before[..i]).StreamLimit() == limit {
        assert before[..i] == es[..i];
      }
      HighestIsConstant(before, limit);
    }
  }
}
