/** The two window counters of flow.go. */
module FlowControl {
  import opened Words

  /** A window after a credit of `delta`: the exact sum, or no change when the sum leaves int32. */
  function Credited(window: int32, delta: int): (w: int32) {
    if FitsInt32(window + delta) then window + delta else window
  }

  /** What one take can get from a stream window and the connection window. */
  function Grant(want: uint32, stream: int32, conn: int32): (got: nat) {
    if stream > 0 && conn > 0 then Min(want, Min(stream, conn)) else 0
  }

  /** Outbound window: a signed 32-bit counter that SETTINGS may push below zero. */
  class Outflow {
    var n: int32

    constructor ()
      ensures n == 0
    {
      n := 0;
    }

    method Available() returns (ok: bool)
      ensures ok <==> 0 < n
    {
      ok := n > 0;
    }

    /**
     * Takes up to `sz` from the window. On a negative window, where callers never pay, the
     * unsigned comparison makes the whole request affordable.
     */
    method Pay(sz: uint32) returns (got: uint32)
      modifies this
      ensures old(n) >= 0 ==> got == Min(sz, old(n)) && n == old(n) - got
      ensures old(n) < 0 ==> got == Min(sz, 0x1_0000_0000 + old(n)) && n == ToInt32(old(n) - got)
    {
      got := sz;
      var avail := ToUint32(n);
      if avail < sz {
        got := avail;
      }
      TruncatedTerm(n, got);
      n := ToInt32(n - ToInt32(got));
    }

    /**
     * Adds `int32(sz)` to the window. The sign test on the wrapped sum accepts exactly the sums
     * that fit in int32, and then stores the mathematical sum.
     */
    method Refund(sz: uint32) returns (ok: bool)
      modifies this
      ensures ok <==> FitsInt32(old(n) + ToInt32(sz))
      ensures n == Credited(old(n), ToInt32(sz))
    {
      var sum := ToInt32(n + ToInt32(sz));
      if (sum > ToInt32(sz)) == (n > 0) {
        n := sum;
        return true;
      }
      return false;
    }
  }

  /** SETTINGS hands `Refund` the wrapped difference `new - old`; it stands for the signed difference. */
  lemma DeltaIsSigned(was: uint32, now: uint32)
    requires was <= MAX_INT32 && now <= MAX_INT32
    ensures ToInt32(ToUint32(now - was)) == now - was
  {
  }

  const INFLOW_MIN_REFRESH: uint32 := 0x1000

  datatype InflowRefund = Silent | WindowUpdate(increment: uint32) | Panic

  /** Inbound window: what the peer may still send, and what is consumed but not yet announced. */
  class Inflow {
    var remaining: uint32
    var queued: uint32

    constructor ()
      ensures remaining == 0 && queued == 0
    {
      remaining, queued := 0, 0;
    }

    method ResetInitialBalance(sz: uint32) returns (ok: bool)
      modifies this
      ensures ok && remaining == sz && queued == old(queued)
    {
      remaining := sz;
      return true;
    }

    method CheckAndPay(sz: uint32) returns (ok: bool)
      modifies this
      ensures ok <==> sz <= old(remaining)
      ensures remaining == (if ok then old(remaining) - sz else old(remaining)) && queued == old(queued)
    {
      if remaining < sz {
        return false;
      }
      remaining := remaining - sz;
      return true;
    }

    /** Queues `sz` consumed bytes; a queue that reaches 4096 moves back into the window at once. */
    method Refund(sz: uint32) returns (r: InflowRefund)
      modifies this
      ensures var q := ToUint32(old(queued) + sz);
              if q < 4096 then
                r == Silent && queued == q && remaining == old(remaining)
              else if q > 0x7FFF_FFFF then
                r == Panic && queued == q && remaining == old(remaining)
              else
                r == WindowUpdate(q) && queued == 0 && remaining == ToUint32(old(remaining) + q)
    {
      queued := ToUint32(queued + sz);
      if queued >= INFLOW_MIN_REFRESH {
        var windowUpd := queued;
        if windowUpd > MAX_INT32 {
          return Panic;
        }
        queued := 0;
        remaining := ToUint32(remaining + windowUpd);
        return WindowUpdate(windowUpd);
      }
      return Silent;
    }
  }
}
