/**
 * Connection-level inbound accounting: what the DATA handler charges, refunds and announces, and
 * what a peer that keeps its own books can conclude from the WINDOW_UPDATEs it is sent.
 */
module Inbound {
  import opened Words
  import opened FlowControl

  const SELF_WINDOW: uint32 := 4194304  // initial balance, from our own SETTINGS
  const PEER_WINDOW := 65535            // what the peer starts from (RFC 9113, section 6.9.2)
  const MAX_FRAME := 0xFF_FFFF          // a frame length is 24 bits wide

  /** What happens to the payload: the stream is unknown or done, all is piped, or the pipe fails after `n` bytes. */
  datatype Fate = StreamGone | Delivered | ReaderGone(n: nat)

  datatype Event = Data(length: nat, data: nat, fate: Fate) | RemoteGoAway
  {
    predicate Valid() {
      Data? ==> data <= length <= MAX_FRAME && (fate.ReaderGone? ==> fate.n <= data)
    }
    function Pad(): nat requires Data? && Valid() { length - data }
  }

  /** `sent` sums the increments of the connection WINDOW_UPDATEs written so far. */
  datatype State = State(remaining: nat, queued: nat, sent: nat, goneAway: bool, closing: bool)
  {
    predicate Bounded() {
      queued < INFLOW_MIN_REFRESH && remaining + queued <= 0x400_0000
    }
    /** Our own GOAWAY closes the connection, unless some GOAWAY came first. */
    function GoAway(): State {
      if goneAway then this else this.(goneAway := true, closing := true)
    }
    /** The amount a refund of `n` moves back into the window. */
    function Flushed(n: nat): nat {
      if queued + n < INFLOW_MIN_REFRESH then 0 else queued + n
    }
    function Refund(n: nat, announce: bool): State {
      var f := Flushed(n);
      this.(queued := if f == 0 then queued + n else 0,
            remaining := remaining + f,
            sent := if announce then sent + f else sent)
    }
    /** After charging a frame and returning its padding, whose window update is dropped. */
    function Charged(e: Event): State
      requires e.Data? && e.Valid()
    {
      var paid := if e.length <= remaining then this.(remaining := remaining - e.length) else GoAway();
      if e.Pad() > 0 then paid.Refund(e.Pad(), false) else paid
    }
    function Receive(e: Event): State
      requires e.Valid()
    {
      if closing then this
      else match e
        case RemoteGoAway => this.(goneAway := true)
        case Data(_, data, fate) =>
          var s := Charged(e);
          match fate
          case StreamGone => s
          case Delivered => if data > 0 then s.Refund(data, true) else s
          case ReaderGone(n) => if data > 0 then s.Refund(data - n, true) else s
    }
  }

  const INITIAL := State(SELF_WINDOW, 0, 0, false, false)

  /** The DATA handler on the Go counters; `s` gives the fields' values. */
  class Receiver {
    const inflow: Inflow
    var sent: nat
    var goneAway: bool
    var closing: bool

    ghost function Value(): State reads this, inflow {
      State(inflow.remaining, inflow.queued, sent, goneAway, closing)
    }

    constructor ()
      ensures fresh(inflow) && Value() == INITIAL
    {
      inflow := new Inflow();
      sent, goneAway, closing := 0, false, false;
      new;
      var _ := inflow.ResetInitialBalance(SELF_WINDOW);
    }

    method GoAway()
      modifies this
      ensures Value() == old(Value()).GoAway()
    {
      if !goneAway {
        goneAway, closing := true, true;
      }
    }

    /** One refund with its window update written out; within bounds it neither wraps nor panics. */
    method RefundAndAnnounce(n: uint32)
      requires inflow.queued < INFLOW_MIN_REFRESH
      requires inflow.remaining + inflow.queued + n <= 0x800_0000
      modifies this, inflow
      ensures Value() == old(Value()).Refund(n, true)
    {
      var r := inflow.Refund(n);
      match r
      case Silent =>
      case WindowUpdate(increment) => sent := sent + increment;
      case Panic => assert false;
    }

    /** Charges the frame; a frame over the window is refused but processed on, and padding is returned silently. */
    method Charge(e: Event)
      requires e.Data? && e.Valid() && Value().Bounded()
      modifies this, inflow
      ensures Value() == old(Value()).Charged(e)
    {
      ChargedBounded(Value(), e);
      var ok := inflow.CheckAndPay(e.length);
      if !ok {
        GoAway();
      }
      var pad := e.length - e.data;
      if pad > 0 {
        var r := inflow.Refund(pad);
        assert !r.Panic?;
      }
    }

    /** The handler never panics and computes `Receive`, on every frame a framer can produce. */
    method OnData(e: Event)
      requires e.Data? && e.Valid()
      requires !closing && Value().Bounded()
      modifies this, inflow
      ensures Value() == old(Value()).Receive(e)
      ensures Value().Bounded() && inflow.queued < 4096
      ensures goneAway == (old(goneAway) || e.length > old(inflow.remaining))
      ensures closing <==> e.length > old(inflow.remaining) && !old(goneAway)
      ensures inflow.remaining + inflow.queued + HeldBy(old(Value()), e) ==
              old(inflow.remaining) + old(inflow.queued) + if e.length > old(inflow.remaining) then e.length else 0
      ensures sent >= old(sent) && (sent > old(sent) ==> sent >= old(sent) + 4096)
    {
      ReceiveBounded(Value(), e);
      ChargedBounded(Value(), e);
      ReceiveBalance(Value(), e);
      Charge(e);
      match e.fate
      case StreamGone =>
      case Delivered =>
        if e.data > 0 {
          RefundAndAnnounce(e.data);
        }
      case ReaderGone(n) =>
        if e.data > 0 {
          RefundAndAnnounce(e.data - n);
        }
    }
  }

  lemma ChargedBounded(s: State, e: Event)
    requires s.Bounded() && e.Data? && e.Valid()
    ensures s.Charged(e).queued < INFLOW_MIN_REFRESH
    ensures s.Charged(e).remaining + s.Charged(e).queued + e.data <= 0x400_0000
  {
  }

  lemma ReceiveBounded(s: State, e: Event)
    requires s.Bounded() && e.Valid()
    ensures s.Receive(e).Bounded()
  {
    if e.Data? {
      ChargedBounded(s, e);
      match e.fate
      case StreamGone =>
      case Delivered =>
      case ReaderGone(n) =>
    }
  }

  // ----- whole runs

  ghost predicate Frames(es: seq<Event>) {
    forall i :: 0 <= i < |es| ==> es[i].Valid()
  }

  ghost function Run(es: seq<Event>): State
    requires Frames(es)
  {
    if es == [] then INITIAL else Run(es[..|es| - 1]).Receive(es[|es| - 1])
  }

  function LengthOf(e: Event): nat {
    if e.Data? then e.length else 0
  }

  /** Payload bytes charged and never refunded: frames for gone streams, and what a failed pipe had taken. */
  function HeldBy(s: State, e: Event): nat {
    if s.closing then 0
    else match e
      case Data(_, data, StreamGone) => data
      case Data(_, data, ReaderGone(n)) => if data > 0 then n else 0
      case _ => 0
  }

  /** Credit a padding refund moves into our window, whose update the handler never writes. */
  function DroppedBy(s: State, e: Event): nat
    requires e.Valid()
  {
    if !s.closing && e.Data? && e.Pad() > 0 then s.Flushed(e.Pad()) else 0
  }

  /** A frame longer than the window is not charged, yet refunded like any other. */
  function OverdrawnBy(s: State, e: Event): nat {
    if !s.closing && e.Data? && e.length > s.remaining then e.length else 0
  }

  /** Frame bytes the peer has sent. */
  ghost function Carried(es: seq<Event>): nat {
    if es == [] then 0 else Carried(es[..|es| - 1]) + LengthOf(es[|es| - 1])
  }

  ghost function Held(es: seq<Event>): nat
    requires Frames(es)
  {
    if es == [] then 0 else Held(es[..|es| - 1]) + HeldBy(Run(es[..|es| - 1]), es[|es| - 1])
  }

  ghost function Dropped(es: seq<Event>): nat
    requires Frames(es)
  {
    if es == [] then 0 else Dropped(es[..|es| - 1]) + DroppedBy(Run(es[..|es| - 1]), es[|es| - 1])
  }

  ghost function Overdrawn(es: seq<Event>): nat
    requires Frames(es)
  {
    if es == [] then 0 else Overdrawn(es[..|es| - 1]) + OverdrawnBy(Run(es[..|es| - 1]), es[|es| - 1])
  }

  /** The window as the peer computes it. */
  ghost function PeerWindow(es: seq<Event>): int
    requires Frames(es)
  {
    PEER_WINDOW + Run(es).sent - Carried(es)
  }

  /** The peer never sends a frame longer than the window it computes. */
  ghost predicate Obeys(es: seq<Event>)
    requires Frames(es)
  {
    forall i :: 0 <= i < |es| && es[i].Data? ==> es[i].length <= PeerWindow(es[..i])
  }

  /** No run of frames whatever, obedient or not, overflows a counter or reaches the panic. */
  lemma {:induction false} AlwaysBounded(es: seq<Event>)
    requires Frames(es)
    ensures Run(es).Bounded()
  {
    if es != [] {
      AlwaysBounded(es[..|es| - 1]);
      ReceiveBounded(Run(es[..|es| - 1]), es[|es| - 1]);
    }
  }

  lemma RefundBalance(s: State, n: nat, announce: bool)
    ensures var t := s.Refund(n, announce);
            && t.remaining + t.queued == s.remaining + s.queued + n
            && t.remaining - t.sent == s.remaining - s.sent + (if announce then 0 else s.Flushed(n))
            && t.closing == s.closing
  {
  }

  lemma ChargedBalance(s: State, e: Event)
    requires e.Data? && e.Valid() && !s.closing
    ensures var t := s.Charged(e);
            && t.remaining + t.queued + e.data == s.remaining + s.queued + OverdrawnBy(s, e)
            && t.remaining - t.sent == s.remaining - s.sent - e.length + DroppedBy(s, e) + OverdrawnBy(s, e)
            && (e.length <= s.remaining ==> !t.closing)
  {
    var paid := if e.length <= s.remaining then s.(remaining := s.remaining - e.length) else s.GoAway();
    RefundBalance(paid, e.Pad(), false);
  }

  /** A frame moves bytes between the window, the queue and the held bytes; only an overdrawn one adds any. */
  lemma ReceiveBalance(s: State, e: Event)
    requires e.Valid()
    ensures var t := s.Receive(e);
            && t.remaining + t.queued + HeldBy(s, e) == s.remaining + s.queued + OverdrawnBy(s, e)
            && (!s.closing && LengthOf(e) <= s.remaining ==>
                  !t.closing && t.remaining - t.sent == s.remaining - s.sent - LengthOf(e) + DroppedBy(s, e))
  {
    if e.Data? && !s.closing {
      ChargedBalance(s, e);
      var c := s.Charged(e);
      match e.fate
      case StreamGone => assert s.Receive(e) == c;
      case Delivered => RefundBalance(c, e.data, true);
      case ReaderGone(n) => RefundBalance(c, e.data - n, true);
    }
  }

  /**
   * On every run, what is in the window, queued or held adds up to the initial balance and the
   * overdrawn frames: the sum is constant exactly as long as no frame overdraws the window.
   */
  lemma {:induction false} BalanceIsConstant(es: seq<Event>)
    requires Frames(es)
    ensures Run(es).remaining + Run(es).queued + Held(es) == SELF_WINDOW + Overdrawn(es)
  {
    if es != [] {
      BalanceIsConstant(es[..|es| - 1]);
      ReceiveBalance(Run(es[..|es| - 1]), es[|es| - 1]);
    }
  }

  lemma ObeysBefore(es: seq<Event>)
    requires Frames(es) && Obeys(es) && es != []
    ensures Obeys(es[..|es| - 1])
    ensures es[|es| - 1].Data? ==> es[|es| - 1].length <= PeerWindow(es[..|es| - 1])
  {
    var before := es[..|es| - 1];
    assert forall i :: 0 <= i < |before| ==> es[..i] == before[..i] && es[i] == before[i];
  }

  /**
   * An obedient peer is never cut off, and the books agree exactly: every byte is in the window,
   * queued, or held; the peer sees all of it except what is queued, held or dropped.
   */
  lemma {:induction false} InboundAccounting(es: seq<Event>)
    requires Frames(es) && Obeys(es)
    ensures !Run(es).closing
    ensures Run(es).remaining + Run(es).queued + Held(es) == 4194304
    ensures PeerWindow(es) == 65535 - Run(es).queued - Held(es) - Dropped(es)
  {
    if es != [] {
      var (before, e) := (es[..|es| - 1], es[|es| - 1]);
      ObeysBefore(es);
      InboundAccounting(before);
      ReceiveBalance(Run(before), e);
    }
  }

  /** After a GOAWAY from the peer no frame, however long, makes us close the connection. */
  lemma {:induction false} RemoteGoAwayFirst(es: seq<Event>, fs: seq<Event>)
    requires Frames(es) && Frames(fs) && !Run(es).closing
    ensures var all := es + [RemoteGoAway] + fs; Frames(all) && Run(all).goneAway && !Run(all).closing
    decreases |fs|
  {
    var all := es + [RemoteGoAway] + fs;
    if fs == [] {
      assert all[..|all| - 1] == es && all[|all| - 1] == RemoteGoAway;
    } else {
      RemoteGoAwayFirst(es, fs[..|fs| - 1]);
      assert all[..|all| - 1] == es + [RemoteGoAway] + fs[..|fs| - 1] && all[|all| - 1] == fs[|fs| - 1];
    }
  }

  /** So the next frame an obedient peer sends always passes the check. */
  lemma ObedientPeerPasses(es: seq<Event>, e: Event)
    requires Frames(es + [e]) && Obeys(es + [e]) && e.Data?
    ensures Frames(es) && e.length <= Run(es).remaining
  {
    assert (es + [e])[..|es|] == es;
    assert (es + [e])[|es|] == e;
    assert forall i :: 0 <= i < |es| ==> (es + [e])[..i] == es[..i] && (es + [e])[i] == es[i];
    InboundAccounting(es);
  }

  /** A dropped update is worth at least 4096 bytes. */
  lemma {:induction false} DroppedInBulk(es: seq<Event>)
    requires Frames(es)
    ensures Dropped(es) == 0 || Dropped(es) >= INFLOW_MIN_REFRESH
  {
    if es != [] {
      DroppedInBulk(es[..|es| - 1]);
    }
  }

  /**
   * What an obedient peer is short of is what is queued, held or dropped. Once all it sent was
   * consumed, it is short by less than 4096 bytes, and so cannot stall, exactly if no update was
   * dropped; with bytes held, they count as well.
   */
  lemma NoStall(es: seq<Event>)
    requires Frames(es) && Obeys(es)
    ensures PeerWindow(es) > 65535 - 4096 <==> Dropped(es) == 0 && Run(es).queued + Held(es) < 4096
    ensures Held(es) == 0 ==> (PeerWindow(es) > 65535 - 4096 <==> Dropped(es) == 0)
  {
    InboundAccounting(es);
    AlwaysBounded(es);
    DroppedInBulk(es);
  }

  /** Unpadded DATA that all reaches live readers leaves nothing held and drops no update. */
  lemma {:induction false} NothingKept(es: seq<Event>)
    requires Frames(es)
    requires forall i :: 0 <= i < |es| && es[i].Data? ==> es[i].Pad() == 0 && es[i].fate == Delivered
    ensures Held(es) == 0 && Dropped(es) == 0
  {
    if es != [] {
      NothingKept(es[..|es| - 1]);
    }
  }

  /** `n` padding-only frames of 256 bytes, all for a live stream. */
  ghost function Padding(n: nat): seq<Event> {
    seq(n, _ => Data(256, 0, Delivered))
  }

  lemma {:induction false} PaddingRun(n: nat)
    ensures Frames(Padding(n))
    ensures Run(Padding(n)).sent == 0 && Carried(Padding(n)) == 256 * n && Held(Padding(n)) == 0
  {
    if n > 0 {
      PaddingRun(n - 1);
      var es := Padding(n);
      assert es[..|es| - 1] == Padding(n - 1);
    }
  }

  /** An obedient peer with an empty window can send nothing that is refunded, so it stays stalled for ever. */
  lemma {:induction false} StallIsFinal(es: seq<Event>, fs: seq<Event>)
    requires Frames(es + fs) && Obeys(es + fs) && Frames(es) && PeerWindow(es) == 0
    ensures PeerWindow(es + fs) == 0
    decreases |fs|
  {
    if fs == [] {
      assert es + fs == es;
    } else {
      var (gs, all) := (fs[..|fs| - 1], es + fs);
      assert all[..|all| - 1] == es + gs && all[|all| - 1] == fs[|fs| - 1];
      ObeysBefore(all);
      StallIsFinal(es, gs);
    }
  }

  /**
   * With padding the guarantee fails: an obedient peer whose every byte was consumed can be left
   * with an empty window, and then no update will ever refill it.
   */
  lemma PaddingStallsPeer() returns (es: seq<Event>)
    ensures Frames(es) && Obeys(es) && Held(es) == 0
    ensures PeerWindow(es) == 0
  {
    var last := Data(255, 0, Delivered);
    es := Padding(255) + [last];
    forall i | 0 <= i < 256 ensures es[..i] == Padding(i) && Frames(es[..i]) && PeerWindow(es[..i]) == 65535 - 256 * i {
      assert es[..i] == Padding(i);
      PaddingRun(i);
    }
    PaddingRun(255);
    assert es[..|es| - 1] == Padding(255) && es[|es| - 1] == last;
  }

  /** `n` unpadded frames of 255 bytes for a stream that is finished or unknown. */
  ghost function Unclaimed(n: nat): seq<Event> {
    seq(n, _ => Data(255, 255, StreamGone))
  }

  lemma {:induction false} UnclaimedRun(n: nat)
    requires n <= 257
    ensures var es := Unclaimed(n);
            && Frames(es) && !Run(es).closing && Run(es).remaining == SELF_WINDOW - 255 * n
            && Run(es).sent == 0 && Carried(es) == 255 * n && Held(es) == 255 * n && Dropped(es) == 0
  {
    if n > 0 {
      UnclaimedRun(n - 1);
      var es := Unclaimed(n);
      assert es[..|es| - 1] == Unclaimed(n - 1);
    }
  }

  /**
   * Nor does it take padding: DATA for a finished stream is charged and never refunded, so a peer
   * that obeys, pads nothing and never had an update dropped stalls as well.
   */
  lemma FinishedStreamStallsPeer() returns (es: seq<Event>)
    ensures Frames(es) && Obeys(es) && Dropped(es) == 0
    ensures forall i :: 0 <= i < |es| ==> es[i].Data? && es[i].Pad() == 0 && es[i].fate == StreamGone
    ensures PeerWindow(es) == 0
  {
    es := Unclaimed(257);
    forall i | 0 <= i < 257 ensures Frames(es[..i]) && PeerWindow(es[..i]) == 65535 - 255 * i {
      assert es[..i] == Unclaimed(i);
      UnclaimedRun(i);
    }
    UnclaimedRun(257);
  }
}
