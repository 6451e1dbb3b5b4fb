/**
 The same link over bytes: the pipes carry framed packets, the cells hold a key and a nonce,
 and every packet is really sealed, framed, parsed and opened. Step for step, with the same
 outcomes, it does what the link of nonces does, in every run.
 */
module ByteLink {
  import opened Wrappers
  import opened Wire
  import opened Framing
  import opened Crypto
  import opened Stacks
  import opened NonceLink

  datatype Outgoing = Outgoing(message: Bytes, packet: Bytes)

  datatype BytePort = BytePort(
    cell: Option<Credential>,
    sending: Option<Outgoing>,
    pipe: Bytes,
    reading: Option<Bytes>,
    sent: seq<Bytes>,
    received: seq<Bytes>)

  datatype Endpoints = Endpoints(client: BytePort, server: BytePort) {

    function At(x: Side): BytePort {
      if x.Client? then client else server
    }

    function With(x: Side, p: BytePort): Endpoints {
      if x.Client? then this.(client := p) else this.(server := p)
    }
  }

  function ByteStep(net: Net, b: Endpoints, ev: Event): (Endpoints, Outcome) {
    var x := ev.side;
    var me := b.At(x);
    match ev
    case Seal(_, message, next) =>
      if me.sending.Some? then (b, Blocked)
      else
        var (cell, r) := net.stack.SealMessage(me.cell, next, message);
        if r.Err? then (b.With(x, me.(cell := cell)), Failed(r.error))
        else (b.With(x, me.(cell := cell, sending := Some(Outgoing(message, r.value)))), Stepped)
    case Write(_) =>
      if me.sending.None? then (b, Blocked)
      else
        var Outgoing(message, packet) := me.sending.value;
        if |packet| > net.Limit(x) then
          (b.With(x, me.(sending := None)), Failed(TooLarge(|packet|, net.Limit(x))))
        else
          (b.With(x, me.(sending := None, pipe := me.pipe + Prefixed(net.code, packet), sent := me.sent + [message])),
           Sent(message))
    case Read(_) =>
      var peer := b.At(x.Peer());
      if me.reading.Some? then (b, Blocked)
      else
        (match PacketParser(net.code, net.Limit(x))(peer.pipe)
        case More => (b, Blocked)
        case Done(packet, rest) =>
          (b.With(x, me.(reading := Some(packet))).With(x.Peer(), peer.(pipe := rest)), Stepped)
        case Bad(e, rest) => (b.With(x.Peer(), peer.(pipe := rest)), Failed(e)))
    case Open(_) =>
      if me.reading.None? then (b, Blocked)
      else
        var (cell, r) := net.stack.OpenMessage(me.cell, me.reading.value);
        if r.Err? then (b.With(x, me.(cell := cell, reading := None)), Failed(r.error))
        else (b.With(x, me.(cell := cell, reading := None, received := me.received + [r.value])), Received(r.value))
  }

  function ByteExec(net: Net, b: Endpoints, evs: seq<Event>): Endpoints
    decreases |evs|
  {
    if evs == [] then b else ByteExec(net, ByteStep(net, b, evs[0]).0, evs[1..])
  }

  function ByteTrace(net: Net, b: Endpoints, evs: seq<Event>): (outs: seq<Outcome>)
    ensures |outs| == |evs|
    decreases |evs|
  {
    if evs == [] then [] else [ByteStep(net, b, evs[0]).1] + ByteTrace(net, ByteStep(net, b, evs[0]).0, evs[1..])
  }

  /** Both sides as the handshake leaves them. */
  function Opened(cell: Option<Credential>): Endpoints {
    var p := BytePort(cell, None, [], None, [], []);
    Endpoints(p, p)
  }

  /** Lawful parts, and limits that are lengths. */
  ghost predicate Usable(net: Net) {
    net.stack.Lawful() && net.code.Lawful() && net.clientLimit < USIZE_LIMIT && net.serverLimit < USIZE_LIMIT
  }

  /** A packet that the sender lets through is within its reader's limit. */
  predicate Compatible(net: Net, ev: Event) {
    ev.Seal? && net.Fits(ev.side, ev.next, ev.message) ==> net.Fits(ev.side.Peer(), ev.next, ev.message)
  }

  predicate AllCompatible(net: Net, evs: seq<Event>) {
    forall i :: 0 <= i < |evs| ==> Compatible(net, evs[i])
  }

  function CredentialOf(net: Net, cell: Option<Nonce>): Option<Credential> {
    if cell.Some? then Some(Credential(net.key, cell.value)) else None
  }

  /** The bytes of a packet. */
  function PacketOf(net: Net, i: Item): Bytes {
    var r := net.stack.SealMessage(Some(Credential(net.key, i.under)), i.next, i.message).1;
    if r.Ok? then r.value else []
  }

  function PacketsOf(net: Net, items: seq<Item>): seq<Bytes> {
    if items == [] then [] else [PacketOf(net, items[0])] + PacketsOf(net, items[1..])
  }

  predicate Readable(net: Net, reader: Side, i: Item) {
    net.stack.Sealable(i.next, i.message) && net.Fits(reader, i.next, i.message)
  }

  predicate AllReadable(net: Net, reader: Side, items: seq<Item>) {
    forall k :: 0 <= k < |items| ==> Readable(net, reader, items[k])
  }

  /** The bytes at `b` are those of the packets at `p`. */
  predicate PortMatches(net: Net, x: Side, p: Port, b: BytePort) {
    && b.cell == CredentialOf(net, p.cell)
    && (b.sending.Some? <==> p.sending.Some?)
    && (p.sending.Some? ==> PendingMatches(net, x, p.sending.value, b.sending.value))
    && b.pipe == Frames(net.code, PacketsOf(net, p.wire))
    && AllReadable(net, x.Peer(), p.wire)
    && (b.reading.Some? <==> p.reading.Some?)
    && (p.reading.Some? ==> b.reading.value == PacketOf(net, p.reading.value) && Readable(net, x, p.reading.value))
    && b.sent == p.sent
    && b.received == p.received
  }

  predicate PendingMatches(net: Net, x: Side, i: Item, o: Outgoing) {
    && o == Outgoing(i.message, PacketOf(net, i))
    && net.stack.Sealable(i.next, i.message)
    && (net.Fits(x, i.next, i.message) ==> net.Fits(x.Peer(), i.next, i.message))
  }

  predicate Matches(net: Net, l: Link, b: Endpoints) {
    PortMatches(net, Client, l.client, b.client) && PortMatches(net, Server, l.server, b.server)
  }

  lemma {:induction false} PacketsConcat(net: Net, a: seq<Item>, b: seq<Item>)
    ensures PacketsOf(net, a + b) == PacketsOf(net, a) + PacketsOf(net, b)
    decreases |a|
  {
    if a == [] {
      assert a + b == b;
    } else {
      assert (a + b)[1..] == a[1..] + b;
      PacketsConcat(net, a[1..], b);
    }
  }

  /** What sealing, opening and measuring a packet amount to in terms of its nonces. */
  lemma PacketLaws(net: Net, i: Item, cell: Option<Nonce>)
    requires net.stack.Lawful() && net.stack.Sealable(i.next, i.message)
    ensures |PacketOf(net, i)| == net.stack.PacketSize(i.next, i.message)
    ensures var (after, r) := OpenItem(net, cell, i);
      net.stack.OpenMessage(CredentialOf(net, cell), PacketOf(net, i)) == (CredentialOf(net, after), r)
  {
    var c := Some(Credential(net.key, i.under));
    if net.Encrypted() {
      SealFailure(net.stack, c, i.next, i.message);
    }
    PipelineInversion(net.stack, c, i.next, i.message);
    if net.Encrypted() && cell.Some? && cell.value != i.under {
      WrongNonce(net.stack, c, i.next, i.message, cell.value);
    }
    if !net.Encrypted() {
      UnpackPack(net.stack, i.message);
    }
  }

  lemma SealMatches(net: Net, cell: Option<Nonce>, next: Nonce, message: Bytes)
    requires net.stack.Lawful()
    ensures var (after, r) := SealItem(net, cell, next, message);
      var (after', r') := net.stack.SealMessage(CredentialOf(net, cell), next, message);
      && after' == CredentialOf(net, after)
      && (if r.Ok? then
            && r' == Ok(PacketOf(net, r.value)) && net.stack.Sealable(next, message)
            && r.value.next == next && r.value.message == message
          else r'.Err? && r'.error == r.error)
  {
    if net.Encrypted() {
      SealFailure(net.stack, CredentialOf(net, cell), next, message);
      if cell.Some? && net.stack.Sealable(next, message) {
        SealLaws(net.stack, Credential(net.key, cell.value), next, message);
      }
    }
  }

  /** The states after a seal, spelled out on both levels. */
  lemma SealedPorts(net: Net, l: Link, b: Endpoints, ev: Event, after: Option<Nonce>, r: Result<Item, Error>)
    requires ev.Seal? && l.At(ev.side).sending.None? && b.At(ev.side).sending.None?
    requires SealItem(net, l.At(ev.side).cell, ev.next, ev.message) == (after, r)
    requires r.Ok? ==> net.stack.SealMessage(b.At(ev.side).cell, ev.next, ev.message) ==
                       (CredentialOf(net, after), Ok(PacketOf(net, r.value)))
    requires r.Err? ==> net.stack.SealMessage(b.At(ev.side).cell, ev.next, ev.message) ==
                        (CredentialOf(net, after), Err(r.error))
    ensures var (x, p, q) := (ev.side, l.At(ev.side), b.At(ev.side));
      if r.Ok? then
        && Step(net, l, ev) == (l.With(x, p.(cell := after, sending := Some(r.value))), Stepped)
        && ByteStep(net, b, ev) ==
           (b.With(x, q.(cell := CredentialOf(net, after),
                         sending := Some(Outgoing(ev.message, PacketOf(net, r.value))))), Stepped)
      else
        && Step(net, l, ev) == (l.With(x, p.(cell := after)), Failed(r.error))
        && ByteStep(net, b, ev) == (b.With(x, q.(cell := CredentialOf(net, after))), Failed(r.error))
  {
  }

  lemma SealerMatches(net: Net, x: Side, p: Port, b: BytePort, after: Option<Nonce>, i: Option<Item>)
    requires PortMatches(net, x, p, b) && p.sending.None?
    requires i.Some? ==> PendingMatches(net, x, i.value, Outgoing(i.value.message, PacketOf(net, i.value)))
    ensures var o := if i.Some? then Some(Outgoing(i.value.message, PacketOf(net, i.value))) else None;
      PortMatches(net, x, p.(cell := after, sending := i), b.(cell := CredentialOf(net, after), sending := o))
  {
  }

  lemma SealStepMatches(net: Net, l: Link, b: Endpoints, ev: Event)
    requires Usable(net) && Matches(net, l, b) && Compatible(net, ev) && ev.Seal?
    ensures Matches(net, Step(net, l, ev).0, ByteStep(net, b, ev).0)
    ensures ByteStep(net, b, ev).1 == Step(net, l, ev).1
  {
    var x := ev.side;
    assert PortMatches(net, x, l.At(x), b.At(x));
    if l.At(x).sending.None? {
      SealMatches(net, l.At(x).cell, ev.next, ev.message);
      var (after, r) := SealItem(net, l.At(x).cell, ev.next, ev.message);
      SealedPorts(net, l, b, ev, after, r);
      SealerMatches(net, x, l.At(x), b.At(x), after, if r.Ok? then Some(r.value) else None);
    }
  }

  lemma AppendFrame(net: Net, reader: Side, wire: seq<Item>, i: Item)
    requires AllReadable(net, reader, wire) && Readable(net, reader, i)
    ensures AllReadable(net, reader, wire + [i])
    ensures Frames(net.code, PacketsOf(net, wire + [i])) ==
            Frames(net.code, PacketsOf(net, wire)) + Prefixed(net.code, PacketOf(net, i))
  {
    PacketsConcat(net, wire, [i]);
    assert PacketsOf(net, [i]) == [PacketOf(net, i)];
    FramesConcat(net.code, PacketsOf(net, wire), [PacketOf(net, i)]);
    assert Frames(net.code, [PacketOf(net, i)]) == Prefixed(net.code, PacketOf(net, i)) + [];
  }

  /** The states after a write, spelled out on both levels. */
  lemma WrittenPorts(net: Net, l: Link, b: Endpoints, x: Side, i: Item)
    requires l.At(x).sending == Some(i) && b.At(x).sending == Some(Outgoing(i.message, PacketOf(net, i)))
    requires |PacketOf(net, i)| == net.stack.PacketSize(i.next, i.message)
    ensures var (p, q) := (l.At(x), b.At(x));
      if net.Fits(x, i.next, i.message) then
        && Step(net, l, Write(x)) ==
           (l.With(x, p.(sending := None, wire := p.wire + [i], sent := p.sent + [i.message])), Sent(i.message))
        && ByteStep(net, b, Write(x)) ==
           (b.With(x, q.(sending := None, pipe := q.pipe + Prefixed(net.code, PacketOf(net, i)),
                         sent := q.sent + [i.message])), Sent(i.message))
      else
        && Step(net, l, Write(x)).0 == l.With(x, p.(sending := None))
        && ByteStep(net, b, Write(x)).0 == b.With(x, q.(sending := None))
        && ByteStep(net, b, Write(x)).1 == Step(net, l, Write(x)).1
  {
  }

  lemma WriterMatches(net: Net, x: Side, p: Port, b: BytePort, i: Item)
    requires PortMatches(net, x, p, b) && Readable(net, x.Peer(), i)
    ensures PortMatches(net, x, p.(sending := None, wire := p.wire + [i], sent := p.sent + [i.message]),
                        b.(sending := None, pipe := b.pipe + Prefixed(net.code, PacketOf(net, i)),
                           sent := b.sent + [i.message]))
  {
    AppendFrame(net, x.Peer(), p.wire, i);
  }

  lemma WriteStepMatches(net: Net, l: Link, b: Endpoints, ev: Event)
    requires Usable(net) && Matches(net, l, b) && ev.Write?
    ensures Matches(net, Step(net, l, ev).0, ByteStep(net, b, ev).0)
    ensures ByteStep(net, b, ev).1 == Step(net, l, ev).1
  {
    var x := ev.side;
    assert PortMatches(net, x, l.At(x), b.At(x));
    if l.At(x).sending.Some? {
      var i := l.At(x).sending.value;
      assert PendingMatches(net, x, i, b.At(x).sending.value);
      PacketLaws(net, i, None);
      WrittenPorts(net, l, b, x, i);
      if net.Fits(x, i.next, i.message) {
        WriterMatches(net, x, l.At(x), b.At(x), i);
      } else {
        assert PortMatches(net, x, l.At(x).(sending := None), b.At(x).(sending := None));
      }
    }
  }

  /** Reading from the bytes of a queue of packets takes the first packet, or waits if there is none. */
  lemma ReadHead(net: Net, x: Side, wire: seq<Item>)
    requires Usable(net) && AllReadable(net, x, wire)
    ensures PacketParser(net.code, net.Limit(x))(Frames(net.code, PacketsOf(net, wire))) ==
            if wire == [] then More
            else Done(PacketOf(net, wire[0]), Frames(net.code, PacketsOf(net, wire[1..])))
  {
    if wire != [] {
      assert Readable(net, x, wire[0]);
      PacketLaws(net, wire[0], None);
      PacketRoundTrip(net.code, net.Limit(x), PacketOf(net, wire[0]), Frames(net.code, PacketsOf(net, wire[1..])));
    }
  }

  /** The side that takes a packet into its hand, and the side whose packet is taken. */
  lemma TakerMatches(net: Net, x: Side, p: Port, b: BytePort, i: Item)
    requires PortMatches(net, x, p, b) && Readable(net, x, i)
    ensures PortMatches(net, x, p.(reading := Some(i)), b.(reading := Some(PacketOf(net, i))))
  {
  }

  lemma GiverMatches(net: Net, y: Side, p: Port, b: BytePort)
    requires PortMatches(net, y, p, b) && p.wire != []
    ensures PortMatches(net, y, p.(wire := p.wire[1..]), b.(pipe := Frames(net.code, PacketsOf(net, p.wire[1..]))))
  {
  }

  /** A packet above the reader's limit fails the read, with its length taken and its body left in the pipe. */
  lemma ReadTooLarge(net: Net, b: Endpoints, x: Side, packet: Bytes, t: Bytes)
    requires net.code.Lawful() && net.Limit(x) < |packet| < USIZE_LIMIT
    requires b.At(x).reading.None? && b.At(x.Peer()).pipe == Prefixed(net.code, packet) + t
    ensures ByteStep(net, b, Read(x)) ==
            (b.With(x.Peer(), b.At(x.Peer()).(pipe := packet + t)), Failed(TooLarge(|packet|, net.Limit(x))))
  {
    PacketRoundTrip(net.code, net.Limit(x), packet, t);
  }

  /** The states after a read, spelled out on both levels. */
  lemma ReadPorts(net: Net, l: Link, b: Endpoints, x: Side)
    requires l.At(x).reading.None? && b.At(x).reading.None? && l.At(x.Peer()).wire != []
    requires var wire := l.At(x.Peer()).wire;
      PacketParser(net.code, net.Limit(x))(b.At(x.Peer()).pipe) ==
      Done(PacketOf(net, wire[0]), Frames(net.code, PacketsOf(net, wire[1..])))
    ensures var (p, q) := (l.At(x), l.At(x.Peer()));
      var (p', q') := (b.At(x), b.At(x.Peer()));
      && Step(net, l, Read(x)) ==
         (l.With(x, p.(reading := Some(q.wire[0]))).With(x.Peer(), q.(wire := q.wire[1..])), Stepped)
      && ByteStep(net, b, Read(x)) ==
         (b.With(x, p'.(reading := Some(PacketOf(net, q.wire[0]))))
           .With(x.Peer(), q'.(pipe := Frames(net.code, PacketsOf(net, q.wire[1..])))), Stepped)
  {
  }

  lemma ReadStepMatches(net: Net, l: Link, b: Endpoints, ev: Event)
    requires Usable(net) && Matches(net, l, b) && ev.Read?
    ensures Matches(net, Step(net, l, ev).0, ByteStep(net, b, ev).0)
    ensures ByteStep(net, b, ev).1 == Step(net, l, ev).1
  {
    var x := ev.side;
    var y := x.Peer();
    assert PortMatches(net, x, l.At(x), b.At(x)) && PortMatches(net, y, l.At(y), b.At(y));
    ReadHead(net, x, l.At(y).wire);
    if l.At(x).reading.None? && l.At(y).wire != [] {
      ReadPorts(net, l, b, x);
      TakerMatches(net, x, l.At(x), b.At(x), l.At(y).wire[0]);
      GiverMatches(net, y, l.At(y), b.At(y));
    }
  }

  lemma OpenPortMatches(net: Net, x: Side, p: Port, b: BytePort, cell: Option<Nonce>, given: seq<Bytes>)
    requires PortMatches(net, x, p, b)
    ensures PortMatches(net, x, p.(cell := cell, reading := None, received := p.received + given),
                        b.(cell := CredentialOf(net, cell), reading := None, received := b.received + given))
  {
  }

  lemma OpenStepMatches(net: Net, l: Link, b: Endpoints, ev: Event)
    requires Usable(net) && Matches(net, l, b) && ev.Open?
    ensures Matches(net, Step(net, l, ev).0, ByteStep(net, b, ev).0)
    ensures ByteStep(net, b, ev).1 == Step(net, l, ev).1
  {
    var x := ev.side;
    var p, q := l.At(x), b.At(x);
    assert PortMatches(net, x, p, q);
    if p.reading.Some? {
      PacketLaws(net, p.reading.value, p.cell);
      var (after, r) := OpenItem(net, p.cell, p.reading.value);
      var given := if r.Ok? then [r.value] else [];
      OpenPortMatches(net, x, p, q, after, given);
      assert p.received + [] == p.received && q.received + [] == q.received;
      OpenedPorts(net, l, b, x, after, r);
    }
  }

  /** The states after an open, spelled out on both levels. */
  lemma OpenedPorts(net: Net, l: Link, b: Endpoints, x: Side, after: Option<Nonce>, r: Result<Bytes, Error>)
    requires l.At(x).reading.Some? && b.At(x).reading.Some?
    requires OpenItem(net, l.At(x).cell, l.At(x).reading.value) == (after, r)
    requires net.stack.OpenMessage(b.At(x).cell, b.At(x).reading.value) == (CredentialOf(net, after), r)
    ensures var given := if r.Ok? then [r.value] else [];
      var (p, q) := (l.At(x), b.At(x));
      && Step(net, l, Open(x)).0 == l.With(x, p.(cell := after, reading := None, received := p.received + given))
      && ByteStep(net, b, Open(x)).0 ==
         b.With(x, q.(cell := CredentialOf(net, after), reading := None, received := q.received + given))
      && Step(net, l, Open(x)).1 == (if r.Ok? then Received(r.value) else Failed(r.error))
      && ByteStep(net, b, Open(x)).1 == Step(net, l, Open(x)).1
  {
    assert l.At(x).received + [] == l.At(x).received && b.At(x).received + [] == b.At(x).received;
  }

  /** The simulation, for one event of any stack: same outcome, matching states. */
  lemma StepMatches(net: Net, l: Link, b: Endpoints, ev: Event)
    requires Usable(net) && Matches(net, l, b) && Compatible(net, ev)
    ensures Matches(net, Step(net, l, ev).0, ByteStep(net, b, ev).0)
    ensures ByteStep(net, b, ev).1 == Step(net, l, ev).1
  {
    match ev
    case Seal(_, _, _) => SealStepMatches(net, l, b, ev);
    case Write(_) => WriteStepMatches(net, l, b, ev);
    case Read(_) => ReadStepMatches(net, l, b, ev);
    case Open(_) => OpenStepMatches(net, l, b, ev);
  }

  /** The simulation over whole runs, crossing or not. */
  lemma {:induction false} RunMatches(net: Net, l: Link, b: Endpoints, evs: seq<Event>)
    requires Usable(net) && Matches(net, l, b) && AllCompatible(net, evs)
    ensures Matches(net, Exec(net, l, evs), ByteExec(net, b, evs))
    ensures ByteTrace(net, b, evs) == Trace(net, l, evs)
    decreases |evs|
  {
    if evs != [] {
      assert Compatible(net, evs[0]);
      StepMatches(net, l, b, evs[0]);
      RunMatches(net, Step(net, l, evs[0]).0, ByteStep(net, b, evs[0]).0, evs[1..]);
    }
  }

  lemma OpenedMatches(net: Net, nonce: Nonce)
    ensures Matches(net, Start(Some(nonce)), Opened(Some(Credential(net.key, nonce))))
  {
  }
}
