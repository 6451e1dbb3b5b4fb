/**
 What one call of `send` and one call of `recv` do, for any stack, and how they relate to the
 steps of the link: a send is its Seal followed by its Write, a receive its Read and its Open.
 */
module Transport {
  import opened Wrappers
  import opened Wire
  import opened Framing
  import opened Crypto
  import opened Stacks
  import opened CommonProtocol
  import opened NonceLink
  import opened ByteLink

  function RawStack(): Stack {
    Stack(None, None)
  }

  function CompressStack(codec: Codec): Stack {
    Stack(None, Some(codec))
  }

  function EncryptStack(aead: Aead): Stack {
    Stack(Some(aead), None)
  }

  function CompressEncryptStack(aead: Aead, codec: Codec): Stack {
    Stack(Some(aead), Some(codec))
  }

  /** The cell afterwards, the bytes produced, and the result. */
  datatype SendEffect = SendEffect(cell: Option<Credential>, produced: Bytes, result: Result<(), Error>)

  function SendOutcome(stack: Stack, cfg: Config, cell: Option<Credential>, next: Nonce, message: Bytes): SendEffect {
    var (after, packet) := stack.SealMessage(cell, next, message);
    if packet.Err? then SendEffect(after, [], Err(packet.error))
    else if |packet.value| > cfg.limit then SendEffect(after, [], Err(TooLarge(|packet.value|, cfg.limit)))
    else SendEffect(after, Prefixed(cfg.code, packet.value), Ok(()))
  }

  /** The cell afterwards, the bytes left unread, and the result. */
  datatype RecvEffect = RecvEffect(cell: Option<Credential>, rest: Bytes, result: Result<Bytes, Error>)

  function RecvOutcome(stack: Stack, cfg: Config, cell: Option<Credential>, arriving: Bytes): RecvEffect {
    var p := PacketParser(cfg.code, cfg.limit)(arriving);
    if p.Done? then
      var (after, r) := stack.OpenMessage(cell, p.value);
      RecvEffect(after, p.rest, r)
    else
      RecvEffect(cell, Leftover(p), Err(Concluded(p).error))
  }

  function ConfigOf(net: Net, x: Side, autoFlush: bool): Config {
    Config(net.code, net.Limit(x), autoFlush)
  }

  lemma TwoByteSteps(net: Net, b: Endpoints, e: Event, f: Event)
    ensures var (m, out) := ByteStep(net, b, e);
      var (n, out') := ByteStep(net, m, f);
      ByteExec(net, b, [e, f]) == n && ByteTrace(net, b, [e, f]) == [out, out']
  {
    assert [e, f][1..] == [f];
    var m := ByteStep(net, b, e).0;
    assert ByteExec(net, m, [f]) == ByteExec(net, ByteStep(net, m, f).0, [f][1..]);
    assert ByteTrace(net, m, [f]) == [ByteStep(net, m, f).1];
  }

  /** A whole send, on the state of the link. */
  lemma SendIsSealThenWrite(net: Net, b: Endpoints, x: Side, message: Bytes, next: Nonce, autoFlush: bool)
    requires b.At(x).sending.None?
    ensures var e := SendOutcome(net.stack, ConfigOf(net, x, autoFlush), b.At(x).cell, next, message);
      var evs := [Seal(x, message, next), Write(x)];
      var me := b.At(x);
      && ByteExec(net, b, evs) ==
         b.With(x, me.(cell := e.cell, pipe := me.pipe + e.produced,
                       sent := me.sent + if e.result.Ok? then [message] else []))
      && (if e.result.Ok? then ByteTrace(net, b, evs) == [Stepped, Sent(message)]
          else Failed(e.result.error) in ByteTrace(net, b, evs))
  {
    TwoByteSteps(net, b, Seal(x, message, next), Write(x));
    assert b.At(x).pipe + [] == b.At(x).pipe && b.At(x).sent + [] == b.At(x).sent;
  }

  /** A whole receive: once a packet has arrived, or as soon as the bytes that arrive are none the reader takes. */
  lemma RecvIsReadThenOpen(net: Net, b: Endpoints, x: Side, autoFlush: bool)
    requires b.At(x).reading.None?
    requires !PacketParser(net.code, net.Limit(x))(b.At(x.Peer()).pipe).More?
    ensures var e := RecvOutcome(net.stack, ConfigOf(net, x, autoFlush), b.At(x).cell, b.At(x.Peer()).pipe);
      var evs := [Read(x), Open(x)];
      var (me, peer) := (b.At(x), b.At(x.Peer()));
      && ByteExec(net, b, evs) ==
         b.With(x, me.(cell := e.cell, received := me.received + if e.result.Ok? then [e.result.value] else []))
          .With(x.Peer(), peer.(pipe := e.rest))
      && if PacketParser(net.code, net.Limit(x))(peer.pipe).Done? then
           ByteTrace(net, b, evs) ==
           [Stepped, if e.result.Ok? then Received(e.result.value) else Failed(e.result.error)]
         else
           e.result.Err? && e.cell == me.cell && ByteTrace(net, b, evs) == [Failed(e.result.error), Blocked]
  {
    TwoByteSteps(net, b, Read(x), Open(x));
    assert b.At(x).received + [] == b.At(x).received;
  }

  /** A packet above the limit is refused with its length taken, and the cell is not touched. */
  lemma RecvTooLarge(stack: Stack, cfg: Config, cell: Option<Credential>, packet: Bytes, t: Bytes)
    requires cfg.code.Lawful() && cfg.limit < |packet| < USIZE_LIMIT
    ensures RecvOutcome(stack, cfg, cell, Prefixed(cfg.code, packet) + t) ==
            RecvEffect(cell, packet + t, Err(TooLarge(|packet|, cfg.limit)))
  {
    PacketRoundTrip(cfg.code, cfg.limit, packet, t);
  }

  /**
   A stream that ends before or within a packet gives an I/O error, and the cell is not touched: its
   owner can go on sending.
   */
  lemma RecvAtTheEnd(stack: Stack, cfg: Config, cell: Option<Credential>, packet: Bytes, k: nat)
    requires cfg.code.Lawful() && |packet| <= cfg.limit < USIZE_LIMIT && k < |Prefixed(cfg.code, packet)|
    ensures RecvOutcome(stack, cfg, cell, Prefixed(cfg.code, packet)[..k]) ==
            RecvEffect(cell, [], Err(IO(UnexpectedEof)))
    ensures RecvOutcome(stack, cfg, cell, []) == RecvEffect(cell, [], Err(IO(UnexpectedEof)))
  {
    PacketPrefixFree(cfg.code, cfg.limit, packet, k);
    PacketPrefixFree(cfg.code, cfg.limit, packet, 0);
    assert Prefixed(cfg.code, packet)[..0] == [];
  }

  /** A packet within the limit is opened with the cell as it is, and what follows it stays. */
  lemma RecvOpens(stack: Stack, cfg: Config, cell: Option<Credential>, packet: Bytes, t: Bytes)
    requires cfg.code.Lawful() && |packet| <= cfg.limit < USIZE_LIMIT
    ensures var e := RecvOutcome(stack, cfg, cell, Prefixed(cfg.code, packet) + t);
      e.rest == t && (e.cell, e.result) == stack.OpenMessage(cell, packet)
  {
    PacketRoundTrip(cfg.code, cfg.limit, packet, t);
  }

  /** What one endpoint sends and a peer with its cell receives: the message, and the sender's new cell. */
  lemma SendThenRecv(stack: Stack, mine: Config, theirs: Config, cell: Option<Credential>, next: Nonce, message: Bytes,
                     t: Bytes)
    requires stack.Lawful() && mine.code.Lawful()
    requires theirs.code == mine.code && mine.limit <= theirs.limit < USIZE_LIMIT
    requires SendOutcome(stack, mine, cell, next, message).result.Ok?
    ensures var s := SendOutcome(stack, mine, cell, next, message);
      RecvOutcome(stack, theirs, cell, s.produced + t) == RecvEffect(s.cell, t, Ok(message))
  {
    PipelineInversion(stack, cell, next, message);
    RecvOpens(stack, theirs, cell, stack.SealMessage(cell, next, message).1.value, t);
  }
}
