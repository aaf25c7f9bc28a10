/**
 * The connection and its streams as the source keeps them: objects updated in place. `model` is the
 * connection's value in `Http2Model`, tied to the fields by `Valid`. Every method is proved to
 * make the corresponding step of that model, so what is proved there of all runs holds here.
 */
module Http2Connection {
  import opened Words
  import opened FlowControl
  import M = Http2Model

  /** Why a stream is done, or its response body ended; `NoError` is the source's nil. */
  datatype Reason = NoError | BodyEnd | LocalReset(code: nat) | RemoteReset(code: nat)

  // Error codes (RFC 9113, section 7).
  const PROTOCOL_ERROR := 1
  const FLOW_CONTROL_ERROR := 3

  /**
   * An entry that ends the connection (RFC 9113, section 6.5.2): push, a window over 2^31-1, a
   * frame size out of range.
   */
  predicate Refusable(s: M.Setting) {
    || (s.id == 2 && s.val != 0)
    || (s.id == 4 && s.val > 0x7FFF_FFFF)
    || (s.id == 5 && !(16384 <= s.val <= 16777215))
  }

  class Stream {
    const outflow: Outflow
    var streamID: uint32
    var done: bool         // doneOnce has run and the channel `done` is closed
    var rst: bool          // rstOnce has run
    var doneReason: Reason
    var pipe: Reason       // how the response pipe was closed; `NoError` while it is open
    var rstWritten: nat    // RST_STREAM frames written for the stream
    ghost var released: nat

    constructor ()
      ensures fresh(outflow) && Is(M.Stream(0, 0, false, false, 0))
      ensures doneReason == pipe == NoError && rstWritten == 0
    {
      outflow := new Outflow();
      streamID, done, rst, released := 0, false, false, 0;
      doneReason, pipe, rstWritten := NoError, NoError, 0;
    }

    ghost predicate Is(v: M.Stream)
      reads this, outflow
    {
      v == M.Stream(streamID, outflow.n, done, rst, released)
    }
  }

  class Connection {
    const outflow: Outflow
    const peer: array<uint32>
    var lastStreamID: int32
    var activeStreams: map<uint32, Stream>
    var goneAway: bool
    var closing: bool
    var closeCode: nat     // the error code of our own GOAWAY

    ghost var all: seq<Stream>   // every stream that was given an id, in order
    ghost var counters: set<Outflow>
    ghost var model: M.Conn

    /** Streams and their counters are distinct objects. */
    ghost predicate Distinct()
      reads this
    {
      && outflow !in counters
      && (forall i :: 0 <= i < |all| ==> all[i].outflow in counters)
      && (forall i, j :: 0 <= i < j < |all| ==> all[i] != all[j] && all[i].outflow != all[j].outflow)
    }

    ghost predicate Valid()
      reads this, peer, outflow, all, counters
    {
      && Distinct()
      && peer.Length == 8 && model.peer == peer[..] && model.window == outflow.n && model.lastId == lastStreamID
      && model.goneAway == goneAway && model.closing == closing
      && |model.streams| == |all| && (forall i :: 0 <= i < |all| ==> all[i].Is(model.streams[i]))
      && model.active.Keys == activeStreams.Keys
      && (forall id :: id in model.active ==>
            model.active[id] < |all| && all[model.active[id]] == activeStreams[id] && activeStreams[id].streamID == id)
      && model.InitialWindow() <= MAX_INT32
    }

    /**
     * Framing: if only stream `k` and the windows moved, and ids only left the active map, all
     * still hangs together.
     */
    twostate lemma StreamMoved(k: nat)
      requires old(Valid()) && all == old(all) && counters == old(counters) && k < |all| == |model.streams|
      requires unchanged(peer) && lastStreamID == old(lastStreamID)
      requires model == old(model).(window := outflow.n, streams := old(model).streams[k := model.streams[k]],
                                    active := model.active, goneAway := goneAway, closing := closing)
      requires model.active.Keys == activeStreams.Keys <= old(activeStreams).Keys
      requires forall id :: id in activeStreams ==>
                 activeStreams[id] == old(activeStreams)[id] && model.active[id] == old(model).active[id]
      requires all[k].Is(model.streams[k]) && model.streams[k].id == old(model).streams[k].id
      requires forall i :: 0 <= i < |all| && i != k ==> all[i].Is(old(model).streams[i])
      ensures Valid()
    {
    }

    constructor ()
      ensures Valid() && fresh(outflow) && fresh(peer) && model == M.INITIAL && all == []
      ensures peer[..] == [0, 4096, 1, 1000, 65535, 16384, 0xFFFF_FFFF, 0] && outflow.n == 65535
      ensures lastStreamID == -1 && activeStreams == map[] && !goneAway && !closing
    {
      outflow := new Outflow();
      peer := new uint32[8](i requires 0 <= i < 8 => M.DEFAULT_PEER[i]);
      lastStreamID := -1;
      activeStreams, all, counters, model := map[], [], {}, M.INITIAL;
      goneAway, closing, closeCode := false, false, 0;
      new;
      var _ := outflow.Refund(peer[M.INITIAL_WINDOW_SIZE]);
      assert peer[..] == M.DEFAULT_PEER;
    }

    /**
     * Stream.takeOutflow: the least of the request and both windows, debited from both. What the
     * stream paid in excess of the connection window is given back, which is never refused.
     * `waits` when a window is not positive and the caller would block.
     */
    method PayBoth(s: Stream, sz: uint32) returns (got: uint32, waits: bool)
      requires s.outflow != outflow
      modifies s.outflow, outflow
      ensures waits <==> old(s.outflow.n) <= 0 || old(outflow.n) <= 0
      ensures got == if waits then 0 else Min(sz, Min(old(s.outflow.n), old(outflow.n)))
      ensures s.outflow.n == old(s.outflow.n) - got && outflow.n == old(outflow.n) - got
    {
      var ok1 := s.outflow.Available();
      var ok2 := outflow.Available();
      if !ok1 || !ok2 {
        return 0, true;
      }
      var take1 := s.outflow.Pay(sz);
      var take2 := outflow.Pay(take1);
      if take2 < take1 {
        var ok := s.outflow.Refund(take1 - take2);
        assert ok;
      }
      return take2, false;
    }

    method TakeOutflow(s: Stream, sz: uint32, ghost k: nat) returns (got: uint32, waits: bool)
      requires Valid() && k < |all| && all[k] == s
      modifies this`model, s.outflow, outflow
      ensures Valid() && model == old(model).Take(k, sz)
      ensures got == old(model).Got(k, sz)
      ensures waits <==> old(s.outflow.n) <= 0 || old(outflow.n) <= 0
      ensures got == if waits then 0 else Min(sz, Min(old(s.outflow.n), old(outflow.n)))
      ensures s.outflow.n == old(s.outflow.n) - got && outflow.n == old(outflow.n) - got
    {
      got, waits := PayBoth(s, sz);
      model := model.Take(k, sz);
      StreamMoved(k);
    }

    method ReleaseStreamID(s: Stream)
      modifies this`activeStreams, s`released
      ensures s.released == old(s.released) + 1 && activeStreams == old(activeStreams) - {s.streamID}
    {
      activeStreams := activeStreams - {s.streamID};
      s.released := s.released + 1;
    }

    /** io.Pipe keeps the first error it is closed with. */
    method ClosePipe(s: Stream, err: Reason)
      modifies s`pipe
      ensures s.pipe == if old(s.pipe) == NoError then err else old(s.pipe)
    {
      if s.pipe == NoError {
        s.pipe := err;
      }
    }

    /** The first call, and only that, gives the stream its reason, breaks the pipe with it, and releases the id. */
    method CloseWithError(s: Stream, err: Reason, ghost k: nat)
      requires Valid() && k < |all| && all[k] == s
      modifies this`activeStreams, this`model, s`done, s`released, s`doneReason, s`pipe
      ensures Valid() && model == old(model).With(k, old(model).streams[k].Closed())
      ensures s.doneReason == if old(s.done) then old(s.doneReason) else err
      ensures s.pipe == if old(s.done) || old(s.pipe) != NoError then old(s.pipe) else err
      ensures s.done && s.released == old(s.released) + if old(s.done) then 0 else 1
      ensures activeStreams == if old(s.done) then old(activeStreams) else old(activeStreams) - {s.streamID}
    {
      model := model.With(k, model.streams[k].Closed());
      if !s.done {
        s.done, s.doneReason := true, err;
        ReleaseStreamID(s);
        if err != NoError {
          ClosePipe(s, err);
        }
      }
      StreamMoved(k);
    }

    /**
     * Marks the stream reset and finishes it, once. A reset of our own writes one RST_STREAM, and
     * finishes the stream even if that write fails.
     */
    method Reset(s: Stream, why: Reason, writeFails: bool, ghost k: nat) returns (failed: bool)
      requires Valid() && k < |all| && all[k] == s && (why.LocalReset? || why.RemoteReset?)
      modifies this`activeStreams, this`model, s`done, s`rst, s`released, s`doneReason, s`pipe, s`rstWritten
      ensures Valid() && model == old(model).With(k, old(model).streams[k].Reset())
      ensures s.rstWritten == old(s.rstWritten) + if !old(s.rst) && why.LocalReset? && !writeFails then 1 else 0
      ensures failed <==> !old(s.rst) && why.LocalReset? && writeFails
      ensures s.doneReason == if old(s.rst) || old(s.done) then old(s.doneReason) else why
      ensures s.rst && (s.done <==> !old(s.rst) || old(s.done))
      ensures activeStreams ==
              if old(s.rst) || old(s.done) then old(activeStreams) else old(activeStreams) - {s.streamID}
    {
      failed := false;
      if !s.rst {
        s.rst := true;
        model := model.(streams := model.streams[k := model.streams[k].(reset := true)]);
        if why.LocalReset? {
          failed := WriteRSTStream(s, writeFails);
        }
        StreamMoved(k);
        CloseWithError(s, why, k);
      }
      assert model == old(model).With(k, old(model).streams[k].Reset());
    }

    method WriteRSTStream(s: Stream, fails: bool) returns (failed: bool)
      modifies s`rstWritten
      ensures s.rstWritten == old(s.rstWritten) + (if fails then 0 else 1) && failed == fails
    {
      if !fails {
        s.rstWritten := s.rstWritten + 1;
      }
      failed := fails;
    }

    /** Gives a new stream its id, or `waits` while the active streams are at the peer's limit. */
    method AssignStreamID(s: Stream) returns (sid: uint32, waits: bool)
      requires Valid() && s.Is(M.Stream(0, 0, false, false, 0))
      requires s !in all && s.outflow != outflow && s.outflow !in counters
      modifies this`lastStreamID, this`activeStreams, this`all, this`counters, this`model, s`streamID, s.outflow
      ensures Valid() && model == old(model).Open()
      ensures waits <==> !old(model).CanOpen()
      ensures all == if waits then old(all) else old(all) + [s]
      ensures !waits ==> sid == s.streamID == ToUint32(old(lastStreamID) + 2)
      ensures waits <==> |old(activeStreams)| >= peer[3]
      ensures activeStreams == if waits then old(activeStreams) else old(activeStreams)[sid := s]
      ensures !waits ==> s.outflow.n == peer[4]
    {
      var maxConcStreams := peer[M.MAX_CONCURRENT_STREAMS];
      assert |activeStreams| == |activeStreams.Keys| == |model.active.Keys| == |model.active|;
      if |activeStreams| >= maxConcStreams {
        return 0, true;
      }
      lastStreamID := ToInt32(lastStreamID + 2);
      s.streamID := ToUint32(lastStreamID);
      activeStreams := activeStreams[s.streamID := s];
      var _ := s.outflow.Refund(peer[M.INITIAL_WINDOW_SIZE]);
      all, counters := all + [s], counters + {s.outflow};
      model := model.Open();
      StreamAdded(s);
      return s.streamID, false;
    }

    twostate lemma StreamAdded(s: Stream)
      requires old(Valid()) && all == old(all) + [s] && counters == old(counters) + {s.outflow}
      requires unchanged(peer) && outflow.n == old(outflow.n)
      requires goneAway == old(goneAway) && closing == old(closing)
      requires forall i :: 0 <= i < |old(all)| ==> all[i].Is(old(model).streams[i])
      requires s !in old(all) && s.outflow != outflow && s.outflow !in old(counters)
      requires activeStreams == old(activeStreams)[s.streamID := s]
      requires exists v: M.Stream :: s.Is(v) && model == old(model).(lastId := lastStreamID,
                 streams := old(model).streams + [v], active := old(model).active[s.streamID := |old(all)|])
      ensures Valid()
    {
    }

    /** withStream's lookup. */
    method Lookup(id: uint32) returns (found: bool, s: Stream?)
      requires Valid()
      ensures found <==> model.Reaches(id)
      ensures found ==> s == all[model.active[id]]
      ensures found <==> id in activeStreams && !activeStreams[id].done
      ensures found ==> s == activeStreams[id]
    {
      if id in activeStreams && !activeStreams[id].done {
        return true, activeStreams[id];
      }
      return false, null;
    }

    /** Our GOAWAY, with its code, unless some GOAWAY came first. */
    method GoAway(code: nat)
      requires Valid()
      modifies this`goneAway, this`closing, this`closeCode, this`model
      ensures Valid() && model == old(model).GoAway()
      ensures goneAway && closing == (old(closing) || !old(goneAway))
      ensures closeCode == if old(goneAway) then old(closeCode) else code
    {
      model := model.GoAway();
      if !goneAway {
        goneAway, closing, closeCode := true, true, code;
      }
    }

    /**
     * A window that would pass 2^31-1 stays as it is. That of the connection ends the connection with
     * FLOW_CONTROL_ERROR; that of a live stream ends the stream with it.
     */
    method OnWindowUpdate(id: uint32, increment: uint32, writeFails: bool)
      requires Valid() && !closing && increment <= MAX_INT32
      modifies this`activeStreams, this`goneAway, this`closing, this`closeCode, this`model
      modifies outflow, all, counters
      ensures Valid() && model == old(model).WindowUpdate(id, increment)
      ensures id == 0 ==> CreditedConnection(increment) && activeStreams == old(activeStreams)
      ensures id != 0 ==> goneAway == old(goneAway) && closing == old(closing) && outflow.n == old(outflow.n)
      ensures id != 0 && !(id in old(activeStreams) && !old(activeStreams[id].done)) ==>
                activeStreams == old(activeStreams)
      ensures id != 0 && id in old(activeStreams) && !old(activeStreams[id].done) ==>
                CreditedStream(old(activeStreams[id]), increment, writeFails)
    {
      if id == 0 {
        OnConnectionCredit(increment);
      } else {
        OnStreamUpdate(id, increment, writeFails);
      }
    }

    /** The connection's reaction to an increment of its own window, in its fields. */
    twostate predicate CreditedConnection(increment: uint32)
      reads this, outflow
    {
      if old(outflow.n) + increment <= 0x7FFF_FFFF then
        && outflow.n == old(outflow.n) + increment
        && goneAway == old(goneAway) && closing == old(closing) && closeCode == old(closeCode)
      else
        && outflow.n == old(outflow.n) && goneAway
        && (!old(goneAway) ==> closing && closeCode == 3)
    }

    /** And to an increment of the window of stream `s`. */
    twostate predicate CreditedStream(s: Stream, increment: uint32, writeFails: bool)
      reads this, s, s.outflow
    {
      if old(s.outflow.n) + increment <= 0x7FFF_FFFF then
        && s.outflow.n == old(s.outflow.n) + increment && activeStreams == old(activeStreams)
        && s.rst == old(s.rst) && s.done == old(s.done) && s.rstWritten == old(s.rstWritten)
      else
        && s.outflow.n == old(s.outflow.n) && s.rst
        && (!old(s.rst) && !old(s.done) ==>
              && s.done && s.doneReason == LocalReset(3) && activeStreams == old(activeStreams) - {s.streamID}
              && s.rstWritten == old(s.rstWritten) + if writeFails then 0 else 1)
    }

    method OnStreamUpdate(id: uint32, increment: uint32, writeFails: bool)
      requires Valid() && id != 0 && increment <= MAX_INT32
      modifies this`activeStreams, this`model, all, counters
      ensures Valid() && model == old(model).WindowUpdate(id, increment)
      ensures !(id in old(activeStreams) && !old(activeStreams[id].done)) ==> activeStreams == old(activeStreams)
      ensures id in old(activeStreams) && !old(activeStreams[id].done) ==>
                CreditedStream(old(activeStreams[id]), increment, writeFails)
    {
      var found, s := Lookup(id);
      if found {
        OnStreamCredit(s, increment, writeFails, model.active[id]);
      }
    }

    method OnConnectionCredit(increment: uint32)
      requires Valid() && increment <= MAX_INT32
      modifies this`goneAway, this`closing, this`closeCode, this`model, outflow
      ensures Valid() && model == old(model).WindowUpdate(0, increment)
      ensures CreditedConnection(increment)
    {
      var ok := outflow.Refund(increment);
      if ok {
        model := model.(window := outflow.n);
      }
      assert Valid();
      if !ok {
        GoAway(FLOW_CONTROL_ERROR);
      }
    }

    /** Credit for a stream; one that cannot take it is reset with FLOW_CONTROL_ERROR. */
    method OnStreamCredit(s: Stream, increment: uint32, writeFails: bool, ghost k: nat)
      requires Valid() && increment <= MAX_INT32 && k < |all| && all[k] == s
      modifies this`activeStreams, this`model, s`done, s`rst, s`released, s`doneReason, s`pipe, s`rstWritten, s.outflow
      ensures Valid()
      ensures model == old(model).Credit(k, increment)
      ensures CreditedStream(s, increment, writeFails)
    {
      var ok := s.outflow.Refund(increment);
      model := model.(streams := model.streams[k := model.streams[k].(window := s.outflow.n)]);
      StreamMoved(k);
      if !ok {
        assert model == old(model);
        var _ := Reset(s, LocalReset(FLOW_CONTROL_ERROR), writeFails, k);
      }
    }

    /** RST_STREAM; one without an error is ignored. */
    method OnStreamReset(id: uint32, code: nat)
      requires Valid() && !closing
      modifies this`activeStreams, this`model, all
      ensures Valid() && model == if code == 0 then old(model) else old(model).Next(M.RstStream(id))
      ensures code == 0 || id !in old(activeStreams) || old(activeStreams[id].done) ==>
                activeStreams == old(activeStreams)
      ensures code != 0 && id in old(activeStreams) && !old(activeStreams[id].done) ==>
                var s := old(activeStreams[id]);
                && s.rst && s.rstWritten == old(s.rstWritten)
                && (!old(s.rst) ==>
                      s.done && s.doneReason == RemoteReset(code) && activeStreams == old(activeStreams) - {s.streamID})
    {
      if code != 0 {
        var found, s := Lookup(id);
        if found {
          var _ := Reset(s, RemoteReset(code), false, model.active[id]);
        }
      }
    }

    /** The last frame of a response ends its body and closes its stream. */
    method OnStreamEnded(id: uint32)
      requires Valid() && !closing
      modifies this`activeStreams, this`model, all
      ensures Valid() && model == old(model).Next(M.EndStream(id))
      ensures id !in old(activeStreams) || old(activeStreams[id].done) ==> activeStreams == old(activeStreams)
      ensures id in old(activeStreams) && !old(activeStreams[id].done) ==>
                var s := old(activeStreams[id]);
                && s.done && s.doneReason == NoError && activeStreams == old(activeStreams) - {s.streamID}
                && s.pipe == (if old(s.pipe) == NoError then BodyEnd else old(s.pipe))
                    && s.rstWritten == old(s.rstWritten)
    {
      var found, s := Lookup(id);
      if found {
        EndStream(s, model.active[id]);
      }
    }

    method EndStream(s: Stream, ghost k: nat)
      requires Valid() && k < |all| && all[k] == s
      modifies this`activeStreams, this`model, s`done, s`released, s`doneReason, s`pipe
      ensures Valid() && model == old(model).With(k, old(model).streams[k].Closed())
      ensures s.done && s.doneReason == if old(s.done) then old(s.doneReason) else NoError
      ensures s.pipe == if old(s.pipe) == NoError then BodyEnd else old(s.pipe)
      ensures activeStreams == if old(s.done) then old(activeStreams) else old(activeStreams) - {s.streamID}
    {
      ClosePipe(s, BodyEnd);
      assert Valid();
      CloseWithError(s, NoError, k);
    }

    method ShiftOne(s: Stream, delta: uint32, ghost k: nat)
      requires Valid() && k < |all| && all[k] == s
      modifies this`model, s.outflow
      ensures Valid()
      ensures var before := old(model).streams[k];
              model == old(model).(streams := old(model).streams[k :=
                         before.(window := Credited(before.window, ToInt32(delta)))])
    {
      var _ := s.outflow.Refund(delta);
      model := model.(streams := model.streams[k := model.streams[k].(window := s.outflow.n)]);
      StreamMoved(k);
    }

    /** Every active stream's window moves by `int32(delta)`, unless it cannot. */
    method ShiftWindows(delta: uint32)
      requires Valid()
      modifies this`model, counters
      ensures Valid() && model == old(model).(streams := old(model).ShiftedBut(ToInt32(delta), {}))
    {
      ghost var before := model;
      var todo := activeStreams.Keys;
      assert before.ShiftedBut(ToInt32(delta), todo) == before.streams;
      while todo != {}
        invariant todo <= activeStreams.Keys && Valid()
        invariant model == before.(streams := before.ShiftedBut(ToInt32(delta), todo))
        decreases todo
      {
        var id :| id in todo;
        OwnIdsNow();
        M.ShiftOneMore(before, ToInt32(delta), todo, id);
        ShiftOne(activeStreams[id], delta, model.active[id]);
        todo := todo - {id};
      }
    }

    lemma OwnIdsNow()
      requires Valid()
      ensures M.OwnIds(model)
    {
      forall id | id in model.active ensures model.streams[model.active[id]].id == id {
        assert all[model.active[id]].Is(model.streams[model.active[id]]);
      }
    }

    method StoreSetting(s: M.Setting)
      requires Valid() && s.Acceptable() && s.Known()
      modifies this`model, peer
      ensures Valid() && model == old(model).(peer := old(model).peer[s.id := s.val])
    {
      peer[s.id] := s.val;
      model := model.(peer := model.peer[s.id := s.val]);
      assert model.peer == peer[..];
    }

    method ApplySetting(s: M.Setting)
      requires Valid() && s.Acceptable()
      modifies this`model, peer, counters
      ensures Valid() && model == old(model).Apply(s)
    {
      if s.Known() {
        if s.id == M.INITIAL_WINDOW_SIZE {
          MoveWindows(s.val);
        }
        StoreSetting(s);
      }
    }

    /** The change arrives as the unsigned difference of the two values. */
    method MoveWindows(val: uint32)
      requires Valid() && val <= MAX_INT32
      modifies this`model, counters
      ensures Valid()
      ensures model == old(model).(streams := old(model).ShiftedBut(val - old(model).InitialWindow(), {}))
    {
      var delta := ToUint32(val - peer[M.INITIAL_WINDOW_SIZE]);
      DeltaIsSigned(peer[M.INITIAL_WINDOW_SIZE], val);
      ShiftWindows(delta);
    }

    /**
     * Applies the entries in order; the first unacceptable one ends the connection, with the code
     * that the framer library gives it.
     */
    method OnSettings(ss: seq<M.Setting>)
      requires Valid() && !closing
      modifies this`goneAway, this`closing, this`closeCode, this`model, peer, counters
      ensures Valid() && model == old(model).ApplyAll(ss)
      ensures closing <==> !old(goneAway) && exists i :: 0 <= i < |ss| && Refusable(ss[i])
      ensures closing ==>
                exists i :: 0 <= i < |ss| && Refusable(ss[i]) && (forall j :: 0 <= j < i ==> !Refusable(ss[j]))
                            && closeCode == if ss[i].id == 4 then 3 else 1
    {
      var i := 0;
      while i < |ss|
        invariant 0 <= i <= |ss| && Valid() && !closing && goneAway == old(goneAway)
        invariant model.ApplyAll(ss[i..]) == old(model).ApplyAll(ss)
        invariant forall j :: 0 <= j < i ==> !Refusable(ss[j])
      {
        if !ss[i].Acceptable() {
          assert Refusable(ss[i]);
          GoAway(if ss[i].id == M.INITIAL_WINDOW_SIZE then FLOW_CONTROL_ERROR else PROTOCOL_ERROR);
          return;
        }
        ApplySetting(ss[i]);
        i := i + 1;
      }
    }

    /** Resets one active stream and drops its id. */
    method Cut(s: Stream, id: uint32, code: nat, ghost k: nat)
      requires Valid() && id in model.active && model.active[id] == k && all[k] == s
      modifies this`activeStreams, this`model, s`done, s`rst, s`released, s`doneReason, s`pipe, s`rstWritten
      ensures Valid()
      ensures model == old(model).(streams := old(model).streams[k := old(model).streams[k].Reset()],
                                   active := old(model).active - {id})
    {
      OwnIdsNow();
      M.ResetThenForget(model, k, id);
      var _ := Reset(s, RemoteReset(code), false, k);
      Forget(id);
    }

    method Forget(id: uint32)
      requires Valid()
      modifies this`activeStreams, this`model
      ensures Valid() && model == old(model).(active := old(model).active - {id})
    {
      activeStreams := activeStreams - {id};
      model := model.(active := model.active - {id});
    }

    /** On the first GOAWAY, resets and drops every active stream above `last`. */
    method OnRemoteGoAway(last: uint32, code: nat)
      requires Valid() && !closing
      modifies this`activeStreams, this`goneAway, this`model, all
      ensures Valid() && model == old(model).RemoteGoAway(last)
      ensures goneAway && closing == old(closing)
      ensures forall id :: id in activeStreams <==> id in old(activeStreams) && (old(goneAway) || id <= last)
      ensures !old(goneAway) ==>
                forall id :: id in old(activeStreams) && last < id ==>
                  old(activeStreams)[id].rst && (!old(activeStreams[id].rst) ==> old(activeStreams)[id].done)
    {
      if goneAway {
        return;
      }
      ghost var (before, streams) := (model, activeStreams);
      OwnIdsNow();
      CutAbove(last, code);
      assert model.active.Keys == activeStreams.Keys;
      forall id | id in streams && last < id
        ensures streams[id].rst && (!old(activeStreams[id].rst) ==> streams[id].done)
      {
        M.CutResets(before, last, id);
        assert all[before.active[id]].Is(model.streams[before.active[id]]);
      }
    }

    method CutAbove(last: uint32, code: nat)
      requires Valid() && !goneAway
      modifies this`activeStreams, this`goneAway, this`model, all
      ensures Valid() && model == old(model).CutBut(last, {}) && goneAway && closing == old(closing)
    {
      ghost var before := model;
      OwnIdsNow();
      M.CutNone(model, last);
      goneAway := true;
      model := model.(goneAway := true);
      var todo := activeStreams.Keys;
      while todo != {}
        invariant Valid() && todo <= before.active.Keys && goneAway && closing == old(closing)
        invariant model == before.CutBut(last, todo)
        decreases todo
      {
        var id :| id in todo;
        M.CutOneMore(before, last, todo, id);
        if id > last {
          Cut(activeStreams[id], id, code, before.active[id]);
        }
        todo := todo - {id};
      }
    }
  }
}
