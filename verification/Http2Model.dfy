/**
 * Outbound side of one HTTP/2 connection as a step system on values. A lock-protected region of
 * the source is one step; a step that would wait on a condition leaves the state unchanged.
 */
module Http2Model {
  import opened Words
  import opened FlowControl

  const ENABLE_PUSH := 2
  const MAX_CONCURRENT_STREAMS := 3
  const INITIAL_WINDOW_SIZE := 4
  const MAX_FRAME_SIZE := 5

  datatype Setting = Setting(id: nat, val: uint32)
  {
    /** The framer library's check, and the client's own refusal of server push. */
    predicate Acceptable() {
      && (id == ENABLE_PUSH ==> val == 0)
      && (id == INITIAL_WINDOW_SIZE ==> val <= MAX_INT32)
      && (id == MAX_FRAME_SIZE ==> 0x4000 <= val <= 0xFF_FFFF)
    }
    predicate Known() { 1 <= id <= 6 }
  }

  /** One stream that has been given an id; `released` counts its calls to ReleaseStreamID. */
  datatype Stream = Stream(id: uint32, window: int32, done: bool, reset: bool, released: nat)
  {
    function Closed(): Stream {
      if done then this else this.(done := true, released := released + 1)
    }
    function Reset(): Stream {
      if reset then this else this.(reset := true).Closed()
    }
  }

  /**
   * `peer` is the peer's settings array; `streams` lists every stream in the order ids were
   * assigned; `active` is the map from ids to live streams, here to positions in `streams`.
   */
  datatype Conn = Conn(peer: seq<uint32>, window: int32, streams: seq<Stream>, active: map<uint32, nat>,
                       lastId: int32, goneAway: bool, closing: bool)
  {
    predicate WellFormed() {
      && |peer| == 8
      && peer[INITIAL_WINDOW_SIZE] <= MAX_INT32
      && forall id :: id in active ==> active[id] < |streams|
    }
    function InitialWindow(): uint32 requires |peer| == 8 { peer[INITIAL_WINDOW_SIZE] }
    function StreamLimit(): uint32 requires |peer| == 8 { peer[MAX_CONCURRENT_STREAMS] }

    /** Our own GOAWAY closes the connection, unless some GOAWAY came first. */
    function GoAway(): Conn {
      if goneAway then this else this.(goneAway := true, closing := true)
    }

    /** Stream `k` becomes `s`; if it just finished, its id leaves the active map. */
    function With(k: nat, s: Stream): Conn
      requires k < |streams|
    {
      this.(streams := streams[k := s],
            active := if s.done && !streams[k].done then active - {s.id} else active)
    }

    /** The stream a peer frame for `id` reaches, if it is known and not done. */
    predicate Reaches(id: uint32)
      requires WellFormed()
    {
      id in active && !streams[active[id]].done
    }

    /** The active map holds stream `k`; it always holds a stream under the stream's own id. */
    predicate IsActive(k: nat)
      requires k < |streams|
    {
      streams[k].id in active && active[streams[k].id] == k
    }

    predicate CanOpen() requires |peer| == 8 { |active| < StreamLimit() }

    function Open(): Conn
      requires WellFormed()
    {
      if !CanOpen() then this
      else
        var last := ToInt32(lastId + 2);
        var s := Stream(ToUint32(last), Credited(0, InitialWindow()), false, false, 0);
        this.(lastId := last, streams := streams + [s], active := active[s.id := |streams|])
    }

    /** Bytes stream `k` gets when it asks for `want`. */
    function Got(k: nat, want: uint32): nat
    {
      if k < |streams| then Grant(want, streams[k].window, window) else 0
    }

    function Take(k: nat, want: uint32): Conn
    {
      if k >= |streams| then this
      else
        var got := Got(k, want);
        this.(window := window - got, streams := streams[k := streams[k].(window := streams[k].window - got)])
    }

    /** Credit from the peer for stream `k`; a window that cannot take it resets the stream. */
    function Credit(k: nat, increment: int): Conn
      requires k < |streams|
    {
      var s := streams[k];
      if FitsInt32(s.window + increment) then this.(streams := streams[k := s.(window := s.window + increment)])
      else With(k, s.Reset())
    }

    function WindowUpdate(id: uint32, increment: int): Conn
      requires WellFormed() && 0 <= increment <= MAX_INT32
    {
      if id == 0 then
        if FitsInt32(window + increment) then this.(window := window + increment) else GoAway()
      else if Reaches(id) then Credit(active[id], increment)
      else this
    }

    /**
     * An initial window change moves every active window by the signed difference, if that fits;
     * those in `rest` wait.
     */
    function ShiftedBut(delta: int, rest: set<uint32>): seq<Stream> {
      seq(|streams|, k requires 0 <= k < |streams| =>
        if IsActive(k) && streams[k].id !in rest then streams[k].(window := Credited(streams[k].window, delta))
        else streams[k])
    }

    function Apply(s: Setting): Conn
      requires WellFormed() && s.Acceptable()
    {
      if !s.Known() then this
      else
        this.(streams := if s.id == INITIAL_WINDOW_SIZE then ShiftedBut(s.val - InitialWindow(), {}) else streams,
              peer := peer[s.id := s.val])
    }

    /** The entries of a SETTINGS frame in order, up to the first one that is not acceptable. */
    function ApplyAll(ss: seq<Setting>): Conn
      requires WellFormed()
      decreases |ss|
    {
      if ss == [] then this
      else if !ss[0].Acceptable() then GoAway()
      else Apply(ss[0]).ApplyAll(ss[1..])
    }

    /** Every active stream above `last` is reset and dropped, except that those in `rest` wait. */
    function CutBut(last: uint32, rest: set<uint32>): Conn {
      this.(goneAway := true,
            streams := seq(|streams|, k requires 0 <= k < |streams| =>
              if IsActive(k) && last < streams[k].id && streams[k].id !in rest then streams[k].Reset() else streams[k]),
            active := map id | id in active && (id <= last || id in rest) :: active[id])
    }

    /** A remote GOAWAY, unless some GOAWAY came first. */
    function RemoteGoAway(last: uint32): Conn {
      if goneAway then this else CutBut(last, {})
    }

    function Next(e: Event): Conn
      requires WellFormed() && e.Valid()
    {
      if closing && e.FromPeer() then this
      else match e
        case Open => Open()
        case Take(k, want) => Take(k, want)
        case Close(k) => if k < |streams| then With(k, streams[k].Closed()) else this
        case Cancel(k) => if k < |streams| then With(k, streams[k].Reset()) else this
        case WindowUpdate(id, increment) => WindowUpdate(id, increment)
        case Settings(ss) => ApplyAll(ss)
        case EndStream(id) => if Reaches(id) then With(active[id], streams[active[id]].Closed()) else this
        case RstStream(id) => if Reaches(id) then With(active[id], streams[active[id]].Reset()) else this
        case RemoteGoAway(last) => RemoteGoAway(last)
        case LocalGoAway => GoAway()
    }
  }

  datatype Event =
    | Open                                          // assign an id to a new stream, or wait
    | Take(k: nat, want: uint32)                    // a body writer takes credit, or waits
    | Close(k: nat)                                 // Stream.Close by its user
    | Cancel(k: nat)                                // Stream.Reset by its user
    | WindowUpdate(id: uint32, increment: int)
    | Settings(ss: seq<Setting>)
    | EndStream(id: uint32)                         // HEADERS or DATA with END_STREAM
    | RstStream(id: uint32)                         // RST_STREAM with an error code
    | RemoteGoAway(last: uint32)
    | LocalGoAway
  {
    predicate Valid() {
      WindowUpdate? ==> 0 <= increment <= MAX_INT32
    }
    predicate FromPeer() {
      WindowUpdate? || Settings? || EndStream? || RstStream? || RemoteGoAway?
    }
  }

  const DEFAULT_PEER: seq<uint32> := [0, 4096, 1, 1000, 65535, 16384, 0xFFFF_FFFF, 0]
  const INITIAL := Conn(DEFAULT_PEER, 65535, [], map[], -1, false, false)

  /** Id of the `k`-th stream opened, counting from zero. */
  function IdOf(k: nat): uint32 {
    ToUint32(2 * k + 1)
  }

  /**
   * What every step keeps. The active map holds exactly the streams that are not done, under
   * their own ids, as long as the 32-bit ids have not come round; no window can be driven under
   * the int32 range by an initial window decrease.
   */
  ghost predicate Inv(c: Conn) {
    && c.WellFormed()
    && 0 <= c.window
    && c.lastId == ToInt32(2 * |c.streams| - 1)
    && (forall k :: 0 <= k < |c.streams| ==> StreamOk(c.streams[k], k))
    && (forall id :: id in c.active ==> ActiveOk(c.streams[c.active[id]], id, c.InitialWindow()))
    && (|c.streams| <= ID_SPACE ==> forall k :: 0 <= k < |c.streams| && !c.streams[k].done ==> c.IsActive(k))
  }

  /** The number of odd 32-bit ids. */
  const ID_SPACE := 0x8000_0000

  ghost predicate StreamOk(s: Stream, k: nat) {
    && s.id == IdOf(k)
    && (s.reset ==> s.done)
    && s.released == if s.done then 1 else 0
  }

  ghost predicate ActiveOk(s: Stream, id: uint32, initialWindow: uint32) {
    s.id == id && !s.done && initialWindow - s.window <= MAX_INT32
  }

  ghost predicate OwnIds(c: Conn) {
    forall id :: id in c.active ==> c.active[id] < |c.streams| && c.streams[c.active[id]].id == id
  }

  lemma ShiftOneMore(c: Conn, delta: int, rest: set<uint32>, id: uint32)
    requires OwnIds(c) && id in c.active && id in rest
    ensures var k := c.active[id];
            c.ShiftedBut(delta, rest - {id}) ==
            c.ShiftedBut(delta, rest)[k := c.streams[k].(window := Credited(c.streams[k].window, delta))]
  {
  }

  lemma CutOneMore(c: Conn, last: uint32, rest: set<uint32>, id: uint32)
    requires OwnIds(c) && id in c.active && id in rest
    ensures var (k, d) := (c.active[id], c.CutBut(last, rest));
            && d.streams[k] == c.streams[k]
            && c.CutBut(last, rest - {id}) ==
               if id <= last then d else d.(streams := d.streams[k := c.streams[k].Reset()], active := d.active - {id})
  {
    var (k, d, e) := (c.active[id], c.CutBut(last, rest), c.CutBut(last, rest - {id}));
    assert e.streams == if id <= last then d.streams else d.streams[k := c.streams[k].Reset()];
    assert e.active == if id <= last then d.active else d.active - {id};
  }

  lemma CutResets(c: Conn, last: uint32, id: uint32)
    requires OwnIds(c) && id in c.active && last < id
    ensures c.CutBut(last, {}).streams[c.active[id]] == c.streams[c.active[id]].Reset()
  {
    assert c.IsActive(c.active[id]);
  }

  /** Reset already drops the id of a stream that was not done; dropping it again is harmless. */
  lemma ResetThenForget(c: Conn, k: nat, id: uint32)
    requires OwnIds(c) && id in c.active && c.active[id] == k
    ensures var (r, d) := (c.streams[k].Reset(), c.With(k, c.streams[k].Reset()));
            d.(active := d.active - {id}) == c.(streams := c.streams[k := r], active := c.active - {id})
  {
    assert c.active - {id} - {id} == c.active - {id};
  }

  lemma CutNone(c: Conn, last: uint32)
    ensures c.CutBut(last, c.active.Keys) == c.(goneAway := true)
  {
    assert c.CutBut(last, c.active.Keys).streams == c.streams;
    assert c.CutBut(last, c.active.Keys).active == c.active;
  }

  lemma NextId(n: nat)
    ensures ToInt32(ToInt32(2 * n - 1) + 2) == ToInt32(2 * n + 1)
    ensures ToUint32(ToInt32(2 * n + 1)) == IdOf(n)
  {
    TruncatedTerm(2, 2 * n - 1);
  }

  lemma IdOfBelowWrap(k: nat)
    requires k < 0x8000_0000
    ensures IdOf(k) == 2 * k + 1
  {
  }

  lemma OpenAdds(c: Conn)
    requires Inv(c) && c.CanOpen()
    ensures var n, d := |c.streams|, c.Open();
            && d.lastId == ToInt32(2 * (n + 1) - 1)
            && d.streams == c.streams + [Stream(IdOf(n), c.InitialWindow(), false, false, 0)]
            && d.active == c.active[IdOf(n) := n]
            && d.peer == c.peer && d.window == c.window
  {
    NextId(|c.streams|);
  }

  lemma OpenKeeps(c: Conn)
    requires Inv(c)
    ensures Inv(c.Open())
  {
    if c.CanOpen() {
      var n, d := |c.streams|, c.Open();
      OpenAdds(c);
      forall k | 0 <= k <= n
        ensures StreamOk(d.streams[k], k)
        ensures n < ID_SPACE && !d.streams[k].done ==> d.IsActive(k)
      {
        assert k < n ==> StreamOk(c.streams[k], k) && d.streams[k] == c.streams[k];
        if n < ID_SPACE {
          IdOfBelowWrap(k);
          IdOfBelowWrap(n);
        }
      }
      forall id | id in d.active ensures ActiveOk(d.streams[d.active[id]], id, d.InitialWindow()) {
        assert id != IdOf(n) ==> ActiveOk(c.streams[c.active[id]], id, c.InitialWindow());
      }
    }
  }

  lemma WithKeeps(c: Conn, k: nat, s: Stream)
    requires Inv(c) && k < |c.streams|
    requires s == c.streams[k].Closed() || s == c.streams[k].Reset()
    ensures Inv(c.With(k, s))
  {
  }

  lemma TakeKeeps(c: Conn, k: nat, want: uint32)
    requires Inv(c)
    ensures Inv(c.Take(k, want))
  {
  }

  lemma WindowUpdateKeeps(c: Conn, id: uint32, increment: int)
    requires Inv(c) && 0 <= increment <= MAX_INT32
    ensures Inv(c.WindowUpdate(id, increment))
  {
    if id != 0 && c.Reaches(id) {
      WithKeeps(c, c.active[id], c.streams[c.active[id]].Reset());
    }
  }

  lemma ApplyKeeps(c: Conn, s: Setting)
    requires Inv(c) && s.Acceptable()
    ensures Inv(c.Apply(s))
  {
  }

  lemma {:induction false} ApplyAllKeeps(c: Conn, ss: seq<Setting>)
    requires Inv(c)
    ensures Inv(c.ApplyAll(ss))
    decreases |ss|
  {
    if ss != [] && ss[0].Acceptable() {
      ApplyKeeps(c, ss[0]);
      ApplyAllKeeps(c.Apply(ss[0]), ss[1..]);
    }
  }

  lemma RemoteGoAwayKeeps(c: Conn, last: uint32)
    requires Inv(c)
    ensures Inv(c.RemoteGoAway(last))
  {
    var d := c.RemoteGoAway(last);
    forall k | 0 <= k < |c.streams|
      ensures StreamOk(d.streams[k], k)
      ensures |c.streams| <= ID_SPACE && !d.streams[k].done ==> d.IsActive(k)
    {
      assert StreamOk(c.streams[k], k);
    }
    forall id | id in d.active ensures ActiveOk(d.streams[d.active[id]], id, d.InitialWindow()) {
      assert ActiveOk(c.streams[c.active[id]], id, c.InitialWindow());
    }
  }

  lemma NextKeeps(c: Conn, e: Event)
    requires Inv(c) && e.Valid()
    ensures Inv(c.Next(e))
  {
    match e
    case Open => OpenKeeps(c);
    case Take(k, want) => TakeKeeps(c, k, want);
    case Close(k) => if k < |c.streams| { WithKeeps(c, k, c.streams[k].Closed()); }
    case Cancel(k) => if k < |c.streams| { WithKeeps(c, k, c.streams[k].Reset()); }
    case WindowUpdate(id, increment) => WindowUpdateKeeps(c, id, increment);
    case Settings(ss) => ApplyAllKeeps(c, ss);
    case EndStream(id) => if c.Reaches(id) { WithKeeps(c, c.active[id], c.streams[c.active[id]].Closed()); }
    case RstStream(id) => if c.Reaches(id) { WithKeeps(c, c.active[id], c.streams[c.active[id]].Reset()); }
    case RemoteGoAway(last) => RemoteGoAwayKeeps(c, last);
    case LocalGoAway =>
  }
}
