/**
 * The dynamic table of header compression (RFC 7541) as the encoder and a receiver keep it.
 * EncodeHeaders runs all fields through the encoder before the first frame is written, so a block
 * given up at any later point has changed the encoder's table and not the receiver's. The fields
 * themselves are not modelled: a block inserts any entries, and refers to any. Nor is eviction.
 */
module HeaderTable {
  import opened Wrappers
  import opened HeaderBlocks

  /** What a reference to entry `i` yields, the newest entry being entry 0 (RFC 7541, section 2.3.3). */
  function EntryAt(table: seq<nat>, i: nat): Option<nat> {
    if i < |table| then Some(table[|table| - 1 - i]) else None
  }

  /** Every reference a block might make yields the same from two tables exactly if they are equal. */
  lemma SameEntries(a: seq<nat>, b: seq<nat>)
    ensures (forall i: nat :: EntryAt(a, i) == EntryAt(b, i)) <==> a == b
  {
    if forall i: nat :: EntryAt(a, i) == EntryAt(b, i) {
      assert EntryAt(a, |a|) == EntryAt(b, |a|) && EntryAt(a, |b|) == EntryAt(b, |b|);
      forall k | 0 <= k < |a| ensures a[k] == b[k] {
        assert EntryAt(a, |a| - 1 - k) == EntryAt(b, |a| - 1 - k);
      }
    }
  }

  function EntriesOf(encodings: map<nat, Encoding>, b: Block): seq<nat> {
    if b.id in encodings then encodings[b.id].entries else []
  }

  /** The table of a decoder that has decoded `bs`. */
  function Inserted(encodings: map<nat, Encoding>, bs: seq<Block>): seq<nat> {
    if bs == [] then [] else Inserted(encodings, bs[..|bs| - 1]) + EntriesOf(encodings, bs[|bs| - 1])
  }

  lemma InsertedAppend(encodings: map<nat, Encoding>, bs: seq<Block>, b: Block)
    ensures Inserted(encodings, bs + [b]) == Inserted(encodings, bs) + EntriesOf(encodings, b)
  {
    assert (bs + [b])[..|bs|] == bs;
  }

  lemma {:induction false} InsertedWithout(encodings: map<nat, Encoding>, bs: seq<Block>, id: nat, n: Encoding)
    requires forall i :: 0 <= i < |bs| ==> bs[i].id != id
    ensures Inserted(encodings[id := n], bs) == Inserted(encodings, bs)
  {
    if bs != [] {
      InsertedWithout(encodings, bs[..|bs| - 1], id, n);
    }
  }

  // ----- the encoder's side

  /** The encoder's table holds what all blocks have inserted, and every block was encoded against those before it. */
  ghost predicate InStep(s: System) {
    && s.table == Inserted(s.encodings, s.blocks)
    && (forall id :: id in s.encodings ==> id <= s.lastId && id % 2 == 1)
    && (forall k :: 0 <= k < |s.blocks| && s.blocks[k].id in s.encodings ==>
          s.blocks[k].bytes != [] && s.encodings[s.blocks[k].id].context == Inserted(s.encodings, s.blocks[..k]))
  }

  /** Only blocks that are encoded get onto the wire. */
  ghost predicate EncodedFirst(s: System) {
    && (forall t :: t in s.openers && !s.openers[t].encoded ==>
          s.openers[t].first && s.openers[t].block.id !in s.encodings)
    && (forall t :: t in s.openers && s.openers[t].encoded && s.openers[t].block.bytes != [] ==>
          s.openers[t].block.id in s.encodings)
    && (forall k :: 0 <= k < |Before(s)| && Before(s)[k].bytes != [] ==>
          Before(s)[k].id in s.encodings || Before(s)[k].id in s.abandoned)
  }

  lemma AssignInStep(s: System, e: Event)
    requires Orderly(s) && InStep(s) && EncodedFirst(s) && e.Assign?
    ensures InStep(Next(s, e)) && EncodedFirst(Next(s, e))
  {
    var d := Next(s, e);
    if !s.locked {
      InsertedAppend(s.encodings, s.blocks, d.blocks[|s.blocks|]);
      assert forall k :: 0 <= k <= |s.blocks| ==> d.blocks[..k] == s.blocks[..k];
      assert Before(d) == s.blocks == Before(s);
    }
  }

  lemma EncodeInStep(s: System, e: Event)
    requires Orderly(s) && InStep(s) && EncodedFirst(s) && e.Encode? && e.t in s.openers && !s.openers[e.t].encoded
    requires s.openers[e.t].block.bytes != []
    ensures InStep(Next(s, e))
  {
    assert OnlyOpener(s, e.t);
    var (d, n, id) := (Next(s, e), |s.blocks| - 1, s.lastId);
    var added := Encoding(s.table, e.entries);
    forall k | 0 <= k <= n ensures Inserted(d.encodings, s.blocks[..k]) == Inserted(s.encodings, s.blocks[..k]) {
      InsertedWithout(s.encodings, s.blocks[..k], id, added);
    }
    assert s.blocks == s.blocks[..n] + [s.blocks[n]];
    InsertedAppend(s.encodings, s.blocks[..n], s.blocks[n]);
    InsertedAppend(d.encodings, s.blocks[..n], s.blocks[n]);
  }

  lemma OthersInStep(s: System, e: Event)
    requires Orderly(s) && InStep(s) && EncodedFirst(s) && !e.Assign?
    requires e.Encode? && e.t in s.openers ==> s.openers[e.t].encoded || s.openers[e.t].block.bytes == []
    ensures InStep(Next(s, e))
  {
  }

  lemma EncodedFirstKept(s: System, e: Event)
    requires Orderly(s) && EncodedFirst(s) && !e.Assign?
    ensures EncodedFirst(Next(s, e))
  {
    if e.t in s.openers {
      assert OnlyOpener(s, e.t);
      var (d, n) := (Next(s, e), |s.blocks| - 1);
      forall k | 0 <= k < |Before(d)| && Before(d)[k].bytes != []
        ensures Before(d)[k].id in d.encodings || Before(d)[k].id in d.abandoned
      {
        assert Before(d)[k] == s.blocks[k];
        assert k < n ==> s.blocks[k] == Before(s)[k];
      }
    }
  }

  lemma {:induction false} AlwaysInStep(es: seq<Event>)
    ensures Orderly(Run(es)) && InStep(Run(es)) && EncodedFirst(Run(es))
  {
    AlwaysInv(es);
    if es != [] {
      var (s, e) := (Run(es[..|es| - 1]), es[|es| - 1]);
      AlwaysInStep(es[..|es| - 1]);
      if e.Assign? {
        AssignInStep(s, e);
      } else {
        EncodedFirstKept(s, e);
        if e.Encode? && e.t in s.openers && !s.openers[e.t].encoded && s.openers[e.t].block.bytes != [] {
          EncodeInStep(s, e);
        } else {
          OthersInStep(s, e);
        }
      }
    }
  }

  // ----- the receiver's side

  /** An earlier block that inserted an entry was given up after it had been encoded. */
  ghost predicate LostBefore(s: System, id: nat) {
    exists lost :: lost in s.abandoned && lost < id && lost in s.encodings && s.encodings[lost].entries != []
  }

  /** The `n`-th block a receiver completes, and the blocks before it. */
  lemma {:induction false} ExpectedAt(bs: seq<Block>, abandoned: set<nat>, n: nat) returns (k: nat)
    requires n < |Expected(bs, abandoned)|
    ensures k < |bs| && bs[k] == Expected(bs, abandoned)[n] && bs[k].bytes != [] && bs[k].id !in abandoned
    ensures Expected(bs[..k], abandoned) == Expected(bs, abandoned)[..n]
  {
    var init := bs[..|bs| - 1];
    ExpectedLast(bs, abandoned);
    if n < |Expected(init, abandoned)| {
      k := ExpectedAt(init, abandoned, n);
      assert bs[..k] == init[..k];
    } else {
      k := |bs| - 1;
    }
  }

  predicate NothingLost(encodings: map<nat, Encoding>, bs: seq<Block>, abandoned: set<nat>) {
    forall i :: 0 <= i < |bs| && bs[i].id in abandoned ==> EntriesOf(encodings, bs[i]) == []
  }

  /** Leaving out blocks leaves out entries, exactly if one of those blocks inserted some. */
  lemma {:induction false} InsertedExactly(encodings: map<nat, Encoding>, bs: seq<Block>, abandoned: set<nat>)
    requires forall i :: 0 <= i < |bs| && bs[i].bytes == [] ==> bs[i].id !in encodings
    ensures var (whole, part) := (Inserted(encodings, bs), Inserted(encodings, Expected(bs, abandoned)));
            if NothingLost(encodings, bs, abandoned) then part == whole else |part| < |whole|
  {
    if bs != [] {
      var (init, b) := (bs[..|bs| - 1], bs[|bs| - 1]);
      InsertedExactly(encodings, init, abandoned);
      assert NothingLost(encodings, bs, abandoned) <==>
             NothingLost(encodings, init, abandoned) && (b.id in abandoned ==> EntriesOf(encodings, b) == []) by {
        assert forall i :: 0 <= i < |init| ==> init[i] == bs[i];
      }
      assert Inserted(encodings, bs) == Inserted(encodings, init) + EntriesOf(encodings, b);
      ExpectedLast(bs, abandoned);
      if b.bytes != [] && b.id !in abandoned {
        InsertedAppend(encodings, Expected(init, abandoned), b);
      } else {
        assert Expected(bs, abandoned) == Expected(init, abandoned);
        assert EntriesOf(encodings, b) == [] ==> Inserted(encodings, bs) == Inserted(encodings, init);
      }
    }
  }

  lemma LostExactly(s: System, k: nat)
    requires Orderly(s) && InStep(s) && k < |s.blocks|
    ensures Inserted(s.encodings, Expected(s.blocks[..k], s.abandoned)) == Inserted(s.encodings, s.blocks[..k])
            <==> !LostBefore(s, s.blocks[k].id)
  {
    var bs := s.blocks[..k];
    InsertedExactly(s.encodings, bs, s.abandoned);
    if LostBefore(s, s.blocks[k].id) {
      var lost :| lost in s.abandoned && lost < s.blocks[k].id && lost in s.encodings
          && s.encodings[lost].entries != [];
      assert bs[lost / 2].id == lost;
    }
  }

  /** What a receiver has complete was encoded. */
  lemma CompletedAt(es: seq<Event>, n: nat) returns (k: nat)
    requires var r := LISTENING.AcceptAll(Run(es).wire); !r.Broken? && n < |Complete(r)|
    ensures var (s, bs) := (Run(es), Complete(LISTENING.AcceptAll(Run(es).wire)));
            && k < |s.blocks| && s.blocks[k] == bs[n] && s.blocks[k].id in s.encodings
            && Expected(s.blocks[..k], s.abandoned) == bs[..n]
  {
    AlwaysInStep(es);
    AlwaysInv(es);
    var (s, r) := (Run(es), LISTENING.AcceptAll(Run(es).wire));
    if r.blocks == Expected(Before(s), s.abandoned) {
      k := ExpectedAt(Before(s), s.abandoned, n);
      assert Before(s)[..k] == s.blocks[..k] && Before(s)[k] == s.blocks[k];
    } else {
      k := CompletedLast(s, r, n);
    }
  }

  /** The lock's holder has its block out. */
  lemma CompletedLast(s: System, r: Receiver, n: nat) returns (k: nat)
    requires Orderly(s) && EncodedFirst(s) && Following(s, r) && !r.Broken? && n < |r.blocks|
    requires r.blocks != Expected(Before(s), s.abandoned)
    ensures k < |s.blocks| && s.blocks[k] == r.blocks[n] && s.blocks[k].id in s.encodings
    ensures Expected(s.blocks[..k], s.abandoned) == r.blocks[..n]
  {
    var t :| OnlyOpener(s, t);
    ExpectedLast(s.blocks, s.abandoned);
    k := ExpectedAt(s.blocks, s.abandoned, n);
    assert k < |s.blocks| - 1 ==> Before(s)[k] == s.blocks[k];
  }

  /**
   * With the table left by the blocks `before` it, every reference of `b` means to a receiver what
   * it means to the encoder.
   */
  ghost predicate CanDecode(s: System, before: seq<Block>, b: Block) {
    && b.id in s.encodings
    && forall i: nat :: EntryAt(Inserted(s.encodings, before), i) == EntryAt(s.encodings[b.id].context, i)
  }

  lemma CanDecodeExactly(s: System, k: nat)
    requires Orderly(s) && InStep(s) && k < |s.blocks| && s.blocks[k].id in s.encodings
    ensures CanDecode(s, Expected(s.blocks[..k], s.abandoned), s.blocks[k]) <==> !LostBefore(s, s.blocks[k].id)
  {
    LostExactly(s, k);
    SameEntries(Inserted(s.encodings, Expected(s.blocks[..k], s.abandoned)), s.encodings[s.blocks[k].id].context);
  }

  /**
   * Exactly which blocks a receiver can decode. In every run whose frame sequence is not broken,
   * the receiver has the table that the encoder had for a block it completes if and only if no
   * earlier block that inserted an entry was given up after it had been encoded. A block refused
   * for its size, before it is encoded, does no harm.
   */
  lemma DecodesExactly(es: seq<Event>, n: nat)
    requires var r := LISTENING.AcceptAll(Run(es).wire); !r.Broken? && n < |Complete(r)|
    ensures var (s, bs) := (Run(es), Complete(LISTENING.AcceptAll(Run(es).wire)));
            CanDecode(s, bs[..n], bs[n]) <==> !LostBefore(s, bs[n].id)
  {
    var k := CompletedAt(es, n);
    AlwaysInStep(es);
    CanDecodeExactly(Run(es), k);
  }

  /**
   * A block cancelled before its first frame: nothing of it is on the wire and the sequence is
   * whole, yet a reference of the next block to the newest entry yields one thing to the encoder
   * and nothing to the receiver.
   */
  lemma CancelledBlockDesyncs() returns (es: seq<Event>)
    ensures es == [Assign(0, [1], false), Encode(0, [7]), Abandon(0),
                   Assign(1, [2], true), Encode(1, []), Write(1, 16384)]
    ensures var (s, r) := (Run(es), LISTENING.AcceptAll(Run(es).wire));
            && r == Between(3, [Block(3, [2], true)]) && 3 in s.encodings
            && EntryAt(s.encodings[3].context, 0) == Some(7) && EntryAt(Inserted(s.encodings, []), 0) == None
  {
    es := Extend([], Assign(0, [1], false));
    es := Extend(es, Encode(0, [7]));
    es := Extend(es, Abandon(0));
    es := Extend(es, Assign(1, [2], true));
    es := Extend(es, Encode(1, []));
    es := Extend(es, Write(1, 16384));
    AcceptOneMore(LISTENING, [], Sent(Headers(3, [2], true, true), 16384));
  }
}
