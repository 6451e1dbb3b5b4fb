/** What the theorems on nonces say about the four stacks as they run over bytes. */
module ByteRuns {
  import opened Wrappers
  import opened Wire
  import opened Framing
  import opened Crypto
  import opened Stacks
  import opened NonceLink
  import opened NonceChain
  import opened LinkRuns
  import opened ByteLink
  import opened Fifo

  /** The crossing seal, in terms of bytes: something of the peer's is in hand, in the pipe or about to be written. */
  predicate ByteCrosses(net: Net, b: Endpoints, ev: Event) {
    var peer := b.At(ev.side.Peer());
    && ev.Seal?
    && b.At(ev.side).sending.None?
    && (b.At(ev.side).reading.Some? || peer.pipe != [] ||
        (peer.sending.Some? && |peer.sending.value.packet| <= net.Limit(ev.side.Peer())))
  }

  predicate ByteNonCrossing(net: Net, b: Endpoints, evs: seq<Event>)
    decreases |evs|
  {
    evs == [] || (!ByteCrosses(net, b, evs[0]) && ByteNonCrossing(net, ByteStep(net, b, evs[0]).0, evs[1..]))
  }

  lemma CrossesMatches(net: Net, l: Link, b: Endpoints, ev: Event)
    requires Usable(net) && Matches(net, l, b)
    ensures ByteCrosses(net, b, ev) <==> Crosses(net, l, ev)
  {
    var x := ev.side;
    var y := x.Peer();
    assert PortMatches(net, x, l.At(x), b.At(x)) && PortMatches(net, y, l.At(y), b.At(y));
    var wire := l.At(y).wire;
    if wire != [] {
      assert Readable(net, x, wire[0]);
      PacketLaws(net, wire[0], None);
      FramesNonEmpty(net.code, PacketsOf(net, wire));
    }
    if l.At(y).sending.Some? {
      assert PendingMatches(net, y, l.At(y).sending.value, b.At(y).sending.value);
      PacketLaws(net, l.At(y).sending.value, None);
    }
  }

  lemma {:induction false} NonCrossingMatches(net: Net, l: Link, b: Endpoints, evs: seq<Event>)
    requires Usable(net) && Matches(net, l, b) && AllCompatible(net, evs)
    ensures ByteNonCrossing(net, b, evs) <==> NonCrossing(net, l, evs)
    decreases |evs|
  {
    if evs != [] {
      assert Compatible(net, evs[0]);
      CrossesMatches(net, l, b, evs[0]);
      StepMatches(net, l, b, evs[0]);
      NonCrossingMatches(net, Step(net, l, evs[0]).0, ByteStep(net, b, evs[0]).0, evs[1..]);
    }
  }

  lemma {:induction false} PlainRunIsSafe(net: Net, l: Link, evs: seq<Event>)
    requires !net.Encrypted()
    ensures AllSafe(net, l, evs)
    decreases |evs|
  {
    if evs != [] {
      PlainRunIsSafe(net, Step(net, l, evs[0]).0, evs[1..]);
    }
  }

  /**
   Refinement, one proof for the four stacks. Raw and compress are two independent message
   queues under every interleaving, oversize messages included; encrypt and compress_encrypt
   are the same under the non-crossing interleavings of fitting messages. No open fails, and
   each side has been given a prefix of what the other sent, and all of it when the bytes have
   run out.
   */
  lemma StacksRefineQueues(net: Net, nonce: Nonce, evs: seq<Event>)
    requires Usable(net) && AllCompatible(net, evs)
    requires var start := Opened(Some(Credential(net.key, nonce)));
      net.Encrypted() ==> AllFitting(net, evs) && ByteNonCrossing(net, start, evs)
    ensures var start := Opened(Some(Credential(net.key, nonce)));
      var b := ByteExec(net, start, evs);
      && ByteTrace(net, start, evs) == FifoTrace(net, EMPTY, evs)
      && (forall x: Side :: b.At(x).received <= b.At(x.Peer()).sent)
      && (forall x: Side :: b.At(x).reading.None? && b.At(x.Peer()).pipe == [] ==>
            b.At(x).received == b.At(x.Peer()).sent)
  {
    var start, s := Opened(Some(Credential(net.key, nonce))), Start(Some(nonce));
    OpenedMatches(net, nonce);
    RunMatches(net, s, start, evs);
    StartHealthy(net, Some(nonce));
    if net.Encrypted() {
      NonCrossingMatches(net, s, start, evs);
      FittingNonCrossingIsSafe(net, s, evs);
    } else {
      PlainRunIsSafe(net, s, evs);
    }
    HealthyRun(net, s, evs);
    var l, b := Exec(net, s, evs), ByteExec(net, start, evs);
    forall x: Side
      ensures b.At(x).received <= b.At(x.Peer()).sent
      ensures b.At(x).reading.None? && b.At(x.Peer()).pipe == [] ==> b.At(x).received == b.At(x.Peer()).sent
    {
      DeliveredBytes(net, l, b, x);
    }
  }

  lemma DeliveredBytes(net: Net, l: Link, b: Endpoints, x: Side)
    requires Usable(net) && Matches(net, l, b) && Conserved(l)
    ensures b.At(x).received <= b.At(x.Peer()).sent
    ensures b.At(x).reading.None? && b.At(x.Peer()).pipe == [] ==> b.At(x).received == b.At(x.Peer()).sent
  {
    var y := x.Peer();
    assert l.At(y).sent == l.At(x).received + InTransit(l, x);
    assert PortMatches(net, x, l.At(x), b.At(x)) && PortMatches(net, y, l.At(y), b.At(y));
    if b.At(x).reading.None? && b.At(y).pipe == [] {
      var wire := l.At(y).wire;
      if wire != [] {
        assert Readable(net, x, wire[0]);
        PacketLaws(net, wire[0], None);
        FramesNonEmpty(net.code, PacketsOf(net, wire));
        assert false;
      }
      assert Pipe(l, x) == [];
    }
  }

  predicate ByteQuiet(b: Endpoints) {
    forall x: Side :: b.At(x).sending.None? && b.At(x).pipe == [] && b.At(x).reading.None?
  }

  lemma QuietMatches(net: Net, l: Link, b: Endpoints)
    requires Usable(net) && Matches(net, l, b) && ByteQuiet(b)
    ensures Quiet(l)
  {
    forall x: Side
      ensures l.At(x).sending.None? && l.At(x).wire == [] && l.At(x).reading.None?
    {
      assert PortMatches(net, x, l.At(x), b.At(x));
      assert b.At(x).sending.None? && b.At(x).pipe == [] && b.At(x).reading.None?;
      if l.At(x).wire != [] {
        assert Readable(net, x.Peer(), l.At(x).wire[0]);
        PacketLaws(net, l.At(x).wire[0], None);
        FramesNonEmpty(net.code, PacketsOf(net, l.At(x).wire));
        assert false;
      }
    }
  }

  /**
   Exactly the non-crossing interleavings: a run of fitting messages over an encrypting stack,
   in which the bytes have run out at the end, is a run of two message queues iff it does not
   cross, and iff no send or receive fails.
   */
  lemma EncryptedRefinesIffNonCrossing(net: Net, nonce: Nonce, evs: seq<Event>)
    requires Usable(net) && net.Encrypted() && AllCompatible(net, evs) && AllFitting(net, evs) && Fresh(evs, {nonce})
    requires ByteQuiet(ByteExec(net, Opened(Some(Credential(net.key, nonce))), evs))
    ensures var start := Opened(Some(Credential(net.key, nonce)));
      var outs := ByteTrace(net, start, evs);
      && (outs == FifoTrace(net, EMPTY, evs) <==> ByteNonCrossing(net, start, evs))
      && (NoFailure(outs) <==> ByteNonCrossing(net, start, evs))
  {
    var start, s := Opened(Some(Credential(net.key, nonce))), Start(Some(nonce));
    OpenedMatches(net, nonce);
    RunMatches(net, s, start, evs);
    NonCrossingMatches(net, s, start, evs);
    QuietMatches(net, Exec(net, s, evs), ByteExec(net, start, evs));
    FaultFreeIffNonCrossing(net, nonce, evs);
  }

  // What a reader whose limit is wide enough meets

  /** A packet that the peer lets through is within the limit of `x`. */
  predicate Passable(net: Net, x: Side, packet: Bytes) {
    |packet| <= net.Limit(x.Peer()) ==> |packet| <= net.Limit(x)
  }

  /** The pipe towards `x` holds whole packets within its limit, and so will the next write keep it. */
  ghost predicate Channel(net: Net, x: Side, b: Endpoints, bodies: seq<Bytes>) {
    var peer := b.At(x.Peer());
    && peer.pipe == Frames(net.code, bodies)
    && AllWithin(bodies, net.Limit(x))
    && (peer.sending.Some? ==> Passable(net, x, peer.sending.value.packet))
  }

  lemma ChannelRead(net: Net, x: Side, b: Endpoints, bodies: seq<Bytes>) returns (after: seq<Bytes>)
    requires net.code.Lawful() && net.Limit(x) < USIZE_LIMIT && Channel(net, x, b, bodies)
    ensures Channel(net, x, ByteStep(net, b, Read(x)).0, after) && !ByteStep(net, b, Read(x)).1.Failed?
  {
    if bodies == [] {
      after := bodies;
    } else {
      assert |bodies[0]| <= net.Limit(x);
      PacketRoundTrip(net.code, net.Limit(x), bodies[0], Frames(net.code, bodies[1..]));
      after := if b.At(x).reading.Some? then bodies else bodies[1..];
    }
  }

  lemma ChannelWrite(net: Net, x: Side, b: Endpoints, bodies: seq<Bytes>) returns (after: seq<Bytes>)
    requires Channel(net, x, b, bodies)
    ensures Channel(net, x, ByteStep(net, b, Write(x.Peer())).0, after)
  {
    var sending := b.At(x.Peer()).sending;
    if sending.Some? && |sending.value.packet| <= net.Limit(x.Peer()) {
      var packet := sending.value.packet;
      FramesConcat(net.code, bodies, [packet]);
      assert Frames(net.code, [packet]) == Prefixed(net.code, packet) + [];
      after := bodies + [packet];
    } else {
      after := bodies;
    }
  }

  /** The limit of `x` is at least its peer's, or the message at least, if the peer lets it through, is within it. */
  ghost predicate WithinReach(net: Net, x: Side, ev: Event) {
    || net.Limit(x.Peer()) <= net.Limit(x)
    || (net.stack.Lawful() && (ev.side == x.Peer() ==> Compatible(net, ev)))
  }

  lemma SealedIsPassable(net: Net, x: Side, b: Endpoints, ev: Event)
    requires ev.Seal? && ev.side == x.Peer() && WithinReach(net, x, ev)
    requires b.At(x.Peer()).sending.Some? ==> Passable(net, x, b.At(x.Peer()).sending.value.packet)
    ensures var after := ByteStep(net, b, ev).0.At(x.Peer());
      after.sending.Some? ==> Passable(net, x, after.sending.value.packet)
  {
    var me := b.At(x.Peer());
    if me.sending.None? && net.Limit(x.Peer()) > net.Limit(x) {
      if net.stack.SealMessage(me.cell, ev.next, ev.message).1.Ok? {
        PipelineInversion(net.stack, me.cell, ev.next, ev.message);
        assert x.Peer().Peer() == x;
      }
    }
  }

  /** Nothing else touches what is on the way to `x`. */
  lemma OtherEvents(net: Net, x: Side, b: Endpoints, ev: Event)
    requires ev != Read(x) && ev != Write(x.Peer())
    ensures var (before, after) := (b.At(x.Peer()), ByteStep(net, b, ev).0.At(x.Peer()));
      after.pipe == before.pipe && (!(ev.Seal? && ev.side == x.Peer()) ==> after.sending == before.sending)
  {
    assert x.Peer().Peer() == x && (ev.side == x || ev.side == x.Peer());
    match ev
    case Seal(_, _, _) =>
    case Write(_) =>
    case Read(_) =>
    case Open(_) =>
  }

  lemma ChannelStep(net: Net, x: Side, b: Endpoints, bodies: seq<Bytes>, ev: Event) returns (after: seq<Bytes>)
    requires net.code.Lawful() && net.Limit(x) < USIZE_LIMIT && Channel(net, x, b, bodies)
    requires WithinReach(net, x, ev)
    ensures Channel(net, x, ByteStep(net, b, ev).0, after)
    ensures ev == Read(x) ==> !ByteStep(net, b, ev).1.Failed?
  {
    if ev == Read(x) {
      after := ChannelRead(net, x, b, bodies);
    } else if ev == Write(x.Peer()) {
      after := ChannelWrite(net, x, b, bodies);
    } else {
      after := bodies;
      OtherEvents(net, x, b, ev);
      if ev.Seal? && ev.side == x.Peer() {
        SealedIsPassable(net, x, b, ev);
      }
    }
  }

  lemma {:induction false} ChannelRun(net: Net, x: Side, b: Endpoints, bodies: seq<Bytes>, evs: seq<Event>)
    requires net.code.Lawful() && net.Limit(x) < USIZE_LIMIT && Channel(net, x, b, bodies)
    requires forall k :: 0 <= k < |evs| ==> WithinReach(net, x, evs[k])
    ensures forall k :: 0 <= k < |evs| && evs[k] == Read(x) ==> !ByteTrace(net, b, evs)[k].Failed?
    decreases |evs|
  {
    if evs != [] {
      var (m, out) := ByteStep(net, b, evs[0]);
      assert WithinReach(net, x, evs[0]);
      var after := ChannelStep(net, x, b, bodies, evs[0]);
      ChannelRun(net, x, m, after, evs[1..]);
      assert ByteTrace(net, b, evs) == [out] + ByteTrace(net, m, evs[1..]);
    }
  }

  lemma OpenedChannel(net: Net, x: Side, cell: Option<Credential>)
    ensures Channel(net, x, Opened(cell), [])
  {
  }

  /**
   A side whose limit is at least its peer's never meets a packet that is too large, nor a broken
   frame: in any run, crossing or not, of any stack, whatever is sealed on either side and
   whatever the other direction carries.
   */
  lemma {:induction false} WiderReaderNeverTooLarge(net: Net, x: Side, cell: Option<Credential>, evs: seq<Event>)
    requires net.code.Lawful() && net.Limit(x.Peer()) <= net.Limit(x) < USIZE_LIMIT
    ensures forall k :: 0 <= k < |evs| && evs[k] == Read(x) ==> !ByteTrace(net, Opened(cell), evs)[k].Failed?
  {
    OpenedChannel(net, x, cell);
    ChannelRun(net, x, Opened(cell), [], evs);
  }

  /** With a narrower limit the same holds as long as its peer lets nothing through that is above it. */
  lemma {:induction false} NoReceiveIsTooLarge(net: Net, x: Side, cell: Option<Credential>, evs: seq<Event>)
    requires net.stack.Lawful() && net.code.Lawful() && net.Limit(x) < USIZE_LIMIT
    requires forall k :: 0 <= k < |evs| && evs[k].side == x.Peer() ==> Compatible(net, evs[k])
    ensures forall k :: 0 <= k < |evs| && evs[k] == Read(x) ==> !ByteTrace(net, Opened(cell), evs)[k].Failed?
  {
    OpenedChannel(net, x, cell);
    ChannelRun(net, x, Opened(cell), [], evs);
  }
}
