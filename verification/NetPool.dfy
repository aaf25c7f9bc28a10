/**
 * Pool and state as the source keeps them. Every method only makes steps of `PoolModel`: `trace`
 * records them, so what is proved there of all runs holds after every method.
 */
module NetPool {
  import P = PoolModel

  class State {
    ghost const index: nat   // its place among the connections of the pool
    var isClosed: bool
    var lastIdle: int

    constructor (ghost index: nat)
      ensures this.index == index && !isClosed
    {
      this.index, isClosed, lastIdle := index, false, 0;
    }
  }

  class Pool {
    const maxIdle: nat
    const maxConn: nat           // 0 means no ticket channel
    const maxIdleDuration: nat   // 0 means idle connections do not expire
    var connTicket: nat          // tickets in the channel
    var idleTicket: seq<State>   // the idle queue

    ghost var all: seq<State>
    ghost var model: P.Pool
    ghost var trace: seq<P.Event>

    ghost predicate Valid()
      reads this, all
    {
      && model == P.Run(P.Config(maxIdle, maxConn), trace)
      && (maxConn != 0 ==> model.tickets == connTicket)
      && |model.conns| == |all|
      && (forall i :: 0 <= i < |all| ==> all[i].index == i && all[i].isClosed == model.conns[i].shut)
      && |model.idle| == |idleTicket|
      && (forall i :: 0 <= i < |idleTicket| ==> idleTicket[i] in all && idleTicket[i].index == model.idle[i])
    }

    constructor (maxIdle: nat, maxConn: nat, maxIdleDuration: nat)
      ensures Valid() && trace == [] && all == []
      ensures this.maxIdle == maxIdle && this.maxConn == maxConn
    {
      this.maxIdle, this.maxConn, this.maxIdleDuration := maxIdle, maxConn, maxIdleDuration;
      connTicket, idleTicket, all, trace := 0, [], [], [];
      model := P.Start(P.Config(maxIdle, maxConn));
    }

    ghost method Step(e: P.Event)
      requires model == P.Run(P.Config(maxIdle, maxConn), trace)
      modifies this`model, this`trace
      ensures model == P.Next(old(model), e) && trace == old(trace) + [e]
      ensures model == P.Run(P.Config(maxIdle, maxConn), trace)
    {
      assert (trace + [e])[..|trace|] == trace;
      model, trace := P.Next(model, e), trace + [e];
    }

    /** What every run of the model keeps. */
    lemma Safe()
      requires Valid()
      ensures P.Inv(model) && model.cfg == P.Config(maxIdle, maxConn)
    {
      P.AlwaysInv(P.Config(maxIdle, maxConn), trace);
    }

    /** The end of state.Close, after the flag is set: the ticket receive, which never blocks. */
    method ReturnTicket(c: State)
      requires Valid() && c in all && model.conns[c.index].phase == P.Closing
      modifies this`connTicket, this`model, this`trace
      ensures Valid() && old(trace) <= trace
      ensures model == P.Next(old(model), P.FinishClose(c.index)) && model.conns[c.index].phase == P.Closed
    {
      Safe();
      P.CloseNeverBlocks(P.Config(maxIdle, maxConn), trace, c.index);
      Step(P.FinishClose(c.index));
      if maxConn != 0 {
        assert connTicket > 0;
        connTicket := connTicket - 1;
      }
    }

    /** state.Close of an expired connection that tryGetConn has taken from the queue. */
    method CloseExpired(c: State, ghost sid: nat)
      requires Valid() && c in all && model.conns[c.index].phase == P.Taken && sid !in model.holders
      modifies this`connTicket, this`model, this`trace, c`isClosed
      ensures Valid() && old(trace) <= trace && c.isClosed
      ensures model.holders == old(model).holders && model.dialing == old(model).dialing
    {
      c.isClosed := true;
      Step(P.Inspect(c.index, true, sid));
      ReturnTicket(c);
    }

    /** The receive from the idle queue. What it finds there is open. */
    method PopIdle() returns (c: State)
      requires Valid() && idleTicket != []
      modifies this`idleTicket, this`model, this`trace
      ensures Valid() && old(trace) <= trace && c in all && !c.isClosed
      ensures c == old(idleTicket)[0] && idleTicket == old(idleTicket)[1..]
      ensures model.conns[c.index].phase == P.Taken
      ensures model.holders == old(model).holders && model.dialing == old(model).dialing
    {
      c := idleTicket[0];
      Safe();
      assert c.index == model.idle[0];
      Step(P.TakeIdle);
      idleTicket := idleTicket[1..];
    }

    ghost method HandOut(c: State, sid: nat)
      requires Valid() && c in all && !c.isClosed && model.conns[c.index].phase == P.Taken && sid !in model.holders
      modifies this`model, this`trace
      ensures Valid() && old(trace) <= trace && model.holders == old(model).holders[sid := c.index]
    {
      Step(P.Inspect(c.index, false, sid));
    }

    /** An idle connection that has not expired; without a duration none ever does. */
    predicate Fresh(c: State, now: int)
      reads this, c
    {
      maxIdleDuration == 0 || now - c.lastIdle <= maxIdleDuration
    }

    /**
     * What a search of the queue `q` has done: the first `skipped` connections in it had expired
     * and are closed, no other connection is touched, and the queue is what follows.
     */
    twostate predicate Searched(q: seq<State>, now: int, skipped: nat)
      reads this, all
    {
      && skipped <= |q| && all == old(all)
      && (forall i :: 0 <= i < |q| ==> q[i] in old(all))
      && (forall i :: 0 <= i < skipped ==> !old(Fresh(q[i], now)) && q[i].isClosed)
      && (forall c :: c in all && c !in q[..skipped] ==> c.isClosed == old(c.isClosed))
    }

    /**
     * The first idle connection that has not expired, handed to session `sid`, those before it
     * closed and the rest of the queue as it was. If there is none, the right to dial a new one; or
     * `waits`, when all tickets are out.
     */
    method TryGetConn(now: int, ghost sid: nat) returns (got: State?, waits: bool, ghost skipped: nat)
      requires Valid() && sid !in model.holders
      modifies this`connTicket, this`idleTicket, this`model, this`trace, all`isClosed
      ensures Valid() && old(trace) <= trace && all == old(all)
      ensures Searched(old(idleTicket), now, skipped)
      ensures got != null <==> skipped < |old(idleTicket)|
      ensures maxIdleDuration == 0 ==> skipped == 0
      ensures got != null ==>
                && got == old(idleTicket)[skipped] && old(Fresh(idleTicket[skipped], now))
                && idleTicket == old(idleTicket)[skipped + 1..] && !waits
      ensures got != null ==> got in all && !got.isClosed && model.holders == old(model).holders[sid := got.index]
      ensures got == null ==> idleTicket == [] && model.holders == old(model).holders
      ensures got == null && !waits ==> model.dialing == old(model).dialing + 1
      ensures waits ==> maxConn != 0 && connTicket == maxConn
    {
      got, skipped := SkipExpired(now, sid);
      if got != null {
        HandOut(got, sid);
        return got, false, skipped;
      }
      Safe();
      if maxConn != 0 && connTicket >= maxConn {
        return null, true, skipped;
      }
      Step(P.StartDial);
      if maxConn != 0 {
        connTicket := connTicket + 1;
      }
      return null, false, skipped;
    }

    /** One receive from the queue: the connection is closed if it has expired, and open if it has not. */
    method Inspect(now: int, ghost sid: nat) returns (c: State, expired: bool)
      requires Valid() && idleTicket != [] && sid !in model.holders
      modifies this`connTicket, this`idleTicket, this`model, this`trace, all`isClosed
      ensures Valid() && old(trace) <= trace && c in all
      ensures c == old(idleTicket)[0] && idleTicket == old(idleTicket)[1..]
      ensures expired <==> !Fresh(c, now)
      ensures expired <==> c.isClosed
      ensures !expired ==> model.conns[c.index].phase == P.Taken
      ensures forall d :: d in all && (d != c || !expired) ==> d.isClosed == old(d.isClosed)
      ensures model.holders == old(model).holders && model.dialing == old(model).dialing
    {
      c := PopIdle();
      expired := false;
      if maxIdleDuration != 0 && now - c.lastIdle > maxIdleDuration {
        CloseExpired(c, sid);
        expired := true;
      } else if !c.isClosed {
        return;
      } else {
        assert false;
      }
    }

    /** The receives from the queue, up to one of a connection that can be used. */
    method SkipExpired(now: int, ghost sid: nat) returns (c: State?, ghost skipped: nat)
      requires Valid() && sid !in model.holders
      modifies this`connTicket, this`idleTicket, this`model, this`trace, all`isClosed
      ensures Valid() && old(trace) <= trace && Searched(old(idleTicket), now, skipped)
      ensures model.holders == old(model).holders && model.dialing == old(model).dialing
      ensures maxIdleDuration == 0 ==> skipped == 0
      ensures if skipped < |old(idleTicket)| then
                && c == old(idleTicket)[skipped] && old(Fresh(idleTicket[skipped], now)) && c in all && !c.isClosed
                && idleTicket == old(idleTicket)[skipped + 1..] && model.conns[c.index].phase == P.Taken
              else
                c == null && idleTicket == []
    {
      skipped := 0;
      ghost var q := idleTicket;
      QueueIsKnown();
      while idleTicket != []
        invariant Valid() && old(trace) <= trace && Searched(q, now, skipped)
        invariant idleTicket == q[skipped..] && (maxIdleDuration == 0 ==> skipped == 0)
        invariant model.holders == old(model).holders && model.dialing == old(model).dialing
        decreases |idleTicket|
      {
        var expired;
        c, expired := Inspect(now, sid);
        if !expired {
          return;
        }
        assert q[..skipped + 1] == q[..skipped] + [c];
        skipped := skipped + 1;
      }
      c := null;
    }

    lemma QueueIsKnown()
      requires Valid()
      ensures forall i :: 0 <= i < |idleTicket| ==> idleTicket[i] in all
    {
    }

    /**
     * Connect: the first idle connection that has not expired, else a dialed one; `dialOk` says
     * whether dial and Setup succeed.
     */
    method Connect(now: int, dialOk: bool, ghost sid: nat) returns (c: State?, waits: bool, ghost skipped: nat)
      requires Valid() && sid !in model.holders
      modifies this`connTicket, this`idleTicket, this`all, this`model, this`trace, all`isClosed
      ensures Valid() && old(trace) <= trace && old(all) <= all
      ensures skipped <= |old(idleTicket)| && (maxIdleDuration == 0 ==> skipped == 0)
      ensures forall i :: 0 <= i < skipped ==> !old(Fresh(idleTicket[i], now))
      ensures skipped < |old(idleTicket)| ==>
                && c == old(idleTicket)[skipped] && old(Fresh(idleTicket[skipped], now))
                && idleTicket == old(idleTicket)[skipped + 1..] && all == old(all)
      ensures skipped == |old(idleTicket)| ==> (c == null || c !in old(all)) && idleTicket == []
      ensures c != null ==> c in all && !c.isClosed && model.holders == old(model).holders[sid := c.index]
      ensures c == null ==> model.holders == old(model).holders && (waits || !dialOk)
    {
      c, waits, skipped := TryGetConn(now, sid);
      if c == null && !waits {
        if !dialOk {
          Step(P.DialFail);
        } else {
          Safe();
          Step(P.DialOk(sid));
          c := new State(|all|);
          all := all + [c];
        }
      }
    }

    /**
     * state.Release by the session that holds the connection: back into the queue if it may be kept
     * and there is room, closed otherwise.
     */
    method Release(c: State, close: bool, now: int, ghost sid: nat) returns (reused: bool)
      requires Valid() && c in all && sid in model.holders && model.holders[sid] == c.index
      modifies this`connTicket, this`idleTicket, this`model, this`trace, c`isClosed, c`lastIdle
      ensures Valid() && old(trace) <= trace && all == old(all)
      ensures reused <==> !close && |old(idleTicket)| < maxIdle
      ensures reused ==> idleTicket == old(idleTicket) + [c] && c.lastIdle == now && !c.isClosed
      ensures !reused ==> idleTicket == old(idleTicket) && c.isClosed && model.conns[c.index].phase == P.Closed
      ensures model.holders == old(model).holders - {sid}
    {
      if close {
        CloseReleased(c, close, sid);
        return false;
      }
      c.lastIdle := now;
      if |idleTicket| < maxIdle {
        Enqueue(c, sid);
        return true;
      }
      CloseReleased(c, close, sid);
      return false;
    }

    /** The send to the idle queue, which has room. */
    method Enqueue(c: State, ghost sid: nat)
      requires Valid() && c in all && sid in model.holders && model.holders[sid] == c.index
      requires |idleTicket| < maxIdle
      modifies this`idleTicket, this`model, this`trace
      ensures Valid() && old(trace) <= trace && idleTicket == old(idleTicket) + [c] && !c.isClosed
      ensures model.holders == old(model).holders - {sid}
    {
      Safe();
      Step(P.Release(sid, false));
      idleTicket := idleTicket + [c];
    }

    /** state.Close from Release. */
    method CloseReleased(c: State, close: bool, ghost sid: nat)
      requires Valid() && c in all && sid in model.holders && model.holders[sid] == c.index
      requires close || |idleTicket| >= maxIdle
      modifies this`connTicket, this`model, this`trace, c`isClosed
      ensures Valid() && old(trace) <= trace && c.isClosed && model.conns[c.index].phase == P.Closed
      ensures model.holders == old(model).holders - {sid}
    {
      SetClosed(c, close, sid);
      ReturnTicket(c);
    }

    method SetClosed(c: State, close: bool, ghost sid: nat)
      requires Valid() && c in all && sid in model.holders && model.holders[sid] == c.index
      requires close || |idleTicket| >= maxIdle
      modifies this`model, this`trace, c`isClosed
      ensures Valid() && old(trace) <= trace && c.isClosed && model.conns[c.index].phase == P.Closing
      ensures model.holders == old(model).holders - {sid}
    {
      Safe();
      c.isClosed := true;
      Step(P.Release(sid, close));
    }
  }
}
