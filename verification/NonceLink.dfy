/**
 The link of two endpoints seen at the level of nonces: a packet is the nonce it was
 sealed under, the nonce it carries and its message.

 `send` and `recv` are each two steps, since the cipher's critical section and the stream
 I/O are not atomic together: `Seal` (lock, take, seal, replace) then `Write` (frame and
 write, or TooLarge), and `Read` (one packet into a local buffer) then `Open` (lock, take,
 open, replace or leave empty). An endpoint has at most one send and one recv under way.
 A run is any list of events; an event that is not enabled is `Blocked` and changes nothing.
 */
module NonceLink {
  import opened Wrappers
  import opened Wire
  import opened LengthCodes
  import opened Crypto
  import opened Stacks

  datatype Side = Client | Server {

    function Peer(): Side {
      if Client? then Server else Client
    }
  }

  /** The stack both sides run, its key, the length code, and each side's packet limit. */
  datatype Net = Net(stack: Stack, key: Key, code: LengthCode, clientLimit: nat, serverLimit: nat) {

    function Limit(x: Side): nat {
      if x.Client? then clientLimit else serverLimit
    }

    predicate Encrypted() {
      stack.cipher.Some?
    }

    /** Whether a message with this nonce ahead passes the sender's size check. */
    predicate Fits(x: Side, next: Nonce, message: Bytes) {
      stack.PacketSize(next, message) <= Limit(x)
    }
  }

  datatype Event =
    | Seal(side: Side, message: Bytes, next: Nonce)
    | Write(side: Side)
    | Read(side: Side)
    | Open(side: Side)

  /** What an event shows: `Sent` and `Received` are the Ok results of `send` and `recv`. */
  datatype Outcome =
    | Blocked
    | Stepped
    | Sent(message: Bytes)
    | Received(message: Bytes)
    | Failed(error: Error)

  /** A packet: `under` is the nonce that sealed it, `next` the nonce it carries. */
  datatype Item = Item(under: Nonce, next: Nonce, message: Bytes)

  /**
   One endpoint: its cell, its sealed but unwritten packet, the packets it wrote that the peer
   has not read, the packet it read but has not opened, and the history of its API results.
   */
  datatype Port = Port(
    cell: Option<Nonce>,
    sending: Option<Item>,
    wire: seq<Item>,
    reading: Option<Item>,
    sent: seq<Bytes>,
    received: seq<Bytes>)

  datatype Link = Link(client: Port, server: Port) {

    function At(x: Side): Port {
      if x.Client? then client else server
    }

    function With(x: Side, p: Port): Link {
      if x.Client? then this.(client := p) else this.(server := p)
    }
  }

  function SealItem(net: Net, cell: Option<Nonce>, next: Nonce, message: Bytes): (Option<Nonce>, Result<Item, Error>) {
    if !net.Encrypted() then (cell, Ok(Item(next, next, message)))
    else if cell.None? then (None, Err(Broken))
    else if !net.stack.Sealable(next, message) then (None, Err(AES))
    else (Some(next), Ok(Item(cell.value, next, message)))
  }

  function OpenItem(net: Net, cell: Option<Nonce>, i: Item): (Option<Nonce>, Result<Bytes, Error>) {
    if !net.Encrypted() then (cell, Ok(i.message))
    else if cell.None? then (None, Err(Broken))
    else if cell.value != i.under then (None, Err(AES))
    else (Some(i.next), Ok(i.message))
  }

  function Step(net: Net, l: Link, ev: Event): (Link, Outcome) {
    var x := ev.side;
    var me := l.At(x);
    match ev
    case Seal(_, message, next) =>
      if me.sending.Some? then (l, Blocked)
      else
        var (cell, r) := SealItem(net, me.cell, next, message);
        if r.Err? then (l.With(x, me.(cell := cell)), Failed(r.error))
        else (l.With(x, me.(cell := cell, sending := Some(r.value))), Stepped)
    case Write(_) =>
      if me.sending.None? then (l, Blocked)
      else
        var i := me.sending.value;
        var size := net.stack.PacketSize(i.next, i.message);
        if size > net.Limit(x) then (l.With(x, me.(sending := None)), Failed(TooLarge(size, net.Limit(x))))
        else (l.With(x, me.(sending := None, wire := me.wire + [i], sent := me.sent + [i.message])), Sent(i.message))
    case Read(_) =>
      var peer := l.At(x.Peer());
      if me.reading.Some? || peer.wire == [] then (l, Blocked)
      else (l.With(x, me.(reading := Some(peer.wire[0]))).With(x.Peer(), peer.(wire := peer.wire[1..])), Stepped)
    case Open(_) =>
      if me.reading.None? then (l, Blocked)
      else
        var (cell, r) := OpenItem(net, me.cell, me.reading.value);
        if r.Err? then (l.With(x, me.(cell := cell, reading := None)), Failed(r.error))
        else (l.With(x, me.(cell := cell, reading := None, received := me.received + [r.value])), Received(r.value))
  }

  function Exec(net: Net, l: Link, evs: seq<Event>): Link
    decreases |evs|
  {
    if evs == [] then l else Exec(net, Step(net, l, evs[0]).0, evs[1..])
  }

  function Trace(net: Net, l: Link, evs: seq<Event>): (outs: seq<Outcome>)
    ensures |outs| == |evs|
    decreases |evs|
  {
    if evs == [] then [] else [Step(net, l, evs[0]).1] + Trace(net, Step(net, l, evs[0]).0, evs[1..])
  }

  function OptionSeq<T>(o: Option<T>): seq<T> {
    if o.Some? then [o.value] else []
  }

  /** The packets written to `x` that it has not opened. */
  function Pipe(l: Link, x: Side): seq<Item> {
    OptionSeq(l.At(x).reading) + l.At(x.Peer()).wire
  }

  /**
   The packets on the way to `x`, in the order in which it will open them: read but unopened,
   on the wire, and sealed but unwritten unless the size check is going to drop it.
   */
  function Incoming(net: Net, l: Link, x: Side): seq<Item> {
    var peer := l.At(x.Peer());
    Pipe(l, x) +
    if peer.sending.Some? && net.Fits(x.Peer(), peer.sending.value.next, peer.sending.value.message)
    then [peer.sending.value] else []
  }

  function Messages(items: seq<Item>): seq<Bytes> {
    if items == [] then [] else [items[0].message] + Messages(items[1..])
  }

  function InTransit(l: Link, x: Side): seq<Bytes> {
    Messages(Pipe(l, x))
  }

  /** Both cells equal, nothing in flight, nothing sent yet. */
  function Start(cell: Option<Nonce>): Link {
    var p := Port(cell, None, [], None, [], []);
    Link(p, p)
  }

  /** The seal that crosses: the endpoint seals while a packet of its peer is unprocessed. */
  predicate Crosses(net: Net, l: Link, ev: Event) {
    ev.Seal? && l.At(ev.side).sending.None? && Incoming(net, l, ev.side) != []
  }

  predicate NonCrossing(net: Net, l: Link, evs: seq<Event>)
    decreases |evs|
  {
    evs == [] || (!Crosses(net, l, evs[0]) && NonCrossing(net, Step(net, l, evs[0]).0, evs[1..]))
  }

  /** An event whose message, if any, the cipher and the sender's size check accept. */
  predicate Fitting(net: Net, ev: Event) {
    ev.Seal? ==> net.stack.Sealable(ev.next, ev.message) && net.Fits(ev.side, ev.next, ev.message)
  }

  predicate AllFitting(net: Net, evs: seq<Event>) {
    forall i :: 0 <= i < |evs| ==> Fitting(net, evs[i])
  }

  predicate NoFailure(outs: seq<Outcome>) {
    forall i :: 0 <= i < |outs| ==> !outs[i].Failed?
  }

  /** Everything sealed has been written, read and opened. */
  predicate Quiet(l: Link) {
    forall x: Side :: l.At(x).sending.None? && l.At(x).wire == [] && l.At(x).reading.None?
  }

  function Drawn(ev: Event): set<Nonce> {
    if ev.Seal? then {ev.next} else {}
  }

  /** The nonces drawn in a run are new: pairwise distinct and none of `used`. */
  predicate Fresh(evs: seq<Event>, used: set<Nonce>)
    decreases |evs|
  {
    evs == [] || ((evs[0].Seal? ==> evs[0].next !in used) && Fresh(evs[1..], used + Drawn(evs[0])))
  }

  lemma {:induction false} ExecConcat(net: Net, l: Link, a: seq<Event>, b: seq<Event>)
    ensures Exec(net, l, a + b) == Exec(net, Exec(net, l, a), b)
    ensures Trace(net, l, a + b) == Trace(net, l, a) + Trace(net, Exec(net, l, a), b)
    ensures NonCrossing(net, l, a + b) <==> NonCrossing(net, l, a) && NonCrossing(net, Exec(net, l, a), b)
    decreases |a|
  {
    if a == [] {
      assert a + b == b;
    } else {
      assert (a + b)[1..] == a[1..] + b;
      ExecConcat(net, Step(net, l, a[0]).0, a[1..], b);
    }
  }

  lemma TwoSteps(net: Net, l: Link, a: Event, b: Event)
    ensures var (m, out) := Step(net, l, a);
      var (n, out') := Step(net, m, b);
      Exec(net, l, [a, b]) == n && Trace(net, l, [a, b]) == [out, out']
  {
    assert [a, b][1..] == [b];
    var m := Step(net, l, a).0;
    assert Exec(net, m, [b]) == Exec(net, Step(net, m, b).0, [b][1..]);
    assert Trace(net, m, [b]) == [Step(net, m, b).1];
  }

  /** The packet a successful seal puts on the way to the peer, if it passes the size check. */
  function Sealed(net: Net, x: Side, i: Item): seq<Item> {
    if net.Fits(x, i.next, i.message) then [i] else []
  }

  /** What decides the fate of `x`: its cell and the packets on the way to it. */
  datatype View = View(cell: Option<Nonce>, queue: seq<Item>)

  datatype Views = Views(client: View, server: View) {

    function At(x: Side): View {
      if x.Client? then client else server
    }
  }

  function Look(net: Net, l: Link): Views {
    Views(View(l.client.cell, Incoming(net, l, Client)), View(l.server.cell, Incoming(net, l, Server)))
  }

  /**
   What an event with outcome `out` does to the two cells and the two queues: a seal appends to
   the peer's queue, an open takes the head of one's own, and I/O changes neither.
   */
  predicate ViewNext(net: Net, ev: Event, out: Outcome, v: Views, w: Views) {
    var x := ev.side;
    var y := x.Peer();
    && w.At(y).cell == v.At(y).cell
    && match ev
       case Seal(_, message, next) =>
         if out == Blocked then w == v
         else
           var (cell, r) := SealItem(net, v.At(x).cell, next, message);
           && out == (if r.Ok? then Stepped else Failed(r.error))
           && w.At(x) == View(cell, v.At(x).queue)
           && w.At(y).queue == v.At(y).queue + if r.Ok? then Sealed(net, x, r.value) else []
       case Open(_) =>
         if out == Blocked then w == v
         else
           && v.At(x).queue != []
           && var (cell, r) := OpenItem(net, v.At(x).cell, v.At(x).queue[0]);
              && out == (if r.Ok? then Received(r.value) else Failed(r.error))
              && w.At(x) == View(cell, v.At(x).queue[1..])
              && w.At(y) == v.At(y)
       case _ =>
         && w == v
         && !out.Received?
         && (out.Failed? ==> ev.Write? && out.error.TooLarge?)
  }

  lemma IncomingStep(net: Net, l: Link, ev: Event)
    ensures var x := ev.side;
      var y := x.Peer();
      var m := Step(net, l, ev).0;
      match ev
      case Seal(_, message, next) =>
        && Incoming(net, m, x) == Incoming(net, l, x)
        && Incoming(net, m, y) == Incoming(net, l, y) +
             if l.At(x).sending.Some? then []
             else
               var r := SealItem(net, l.At(x).cell, next, message).1;
               if r.Ok? then Sealed(net, x, r.value) else []
      case Open(_) =>
        && Incoming(net, m, y) == Incoming(net, l, y)
        && if l.At(x).reading.None? then m == l
           else
             && Incoming(net, l, x) != []
             && Incoming(net, l, x)[0] == l.At(x).reading.value
             && Incoming(net, m, x) == Incoming(net, l, x)[1..]
      case _ =>
        && Incoming(net, m, x) == Incoming(net, l, x)
        && Incoming(net, m, y) == Incoming(net, l, y)
  {
    match ev
    case Seal(_, _, _) => SealIncoming(net, l, ev);
    case Write(_) => WriteIncoming(net, l, ev);
    case Read(_) => ReadIncoming(net, l, ev);
    case Open(_) => OpenIncoming(net, l, ev);
  }

  lemma WriteIncoming(net: Net, l: Link, ev: Event)
    requires ev.Write?
    ensures var m := Step(net, l, ev).0;
      && Incoming(net, m, ev.side) == Incoming(net, l, ev.side)
      && Incoming(net, m, ev.side.Peer()) == Incoming(net, l, ev.side.Peer())
  {
  }

  lemma OpenIncoming(net: Net, l: Link, ev: Event)
    requires ev.Open?
    ensures var x := ev.side;
      var m := Step(net, l, ev).0;
      && Incoming(net, m, x.Peer()) == Incoming(net, l, x.Peer())
      && if l.At(x).reading.None? then m == l
         else
           && Incoming(net, l, x) != []
           && Incoming(net, l, x)[0] == l.At(x).reading.value
           && Incoming(net, m, x) == Incoming(net, l, x)[1..]
  {
  }

  lemma SealIncoming(net: Net, l: Link, ev: Event)
    requires ev.Seal?
    ensures var x := ev.side;
      var y := x.Peer();
      var m := Step(net, l, ev).0;
      && Incoming(net, m, x) == Incoming(net, l, x)
      && Incoming(net, m, y) == Incoming(net, l, y) +
           if l.At(x).sending.Some? then []
           else
             var r := SealItem(net, l.At(x).cell, ev.next, ev.message).1;
             if r.Ok? then Sealed(net, x, r.value) else []
  {
    var x := ev.side;
    var y := x.Peer();
    assert Pipe(Step(net, l, ev).0, y) == Pipe(l, y);
    if l.At(x).sending.None? {
      assert Incoming(net, l, y) == Pipe(l, y);
    }
  }

  lemma ReadIncoming(net: Net, l: Link, ev: Event)
    requires ev.Read?
    ensures var m := Step(net, l, ev).0;
      && Incoming(net, m, ev.side) == Incoming(net, l, ev.side)
      && Incoming(net, m, ev.side.Peer()) == Incoming(net, l, ev.side.Peer())
  {
    var x := ev.side;
    var y := x.Peer();
    var m := Step(net, l, ev).0;
    if l.At(x).reading.None? && l.At(y).wire != [] {
      var wire := l.At(y).wire;
      assert [] + wire == [wire[0]] + wire[1..];
      assert Pipe(m, x) == Pipe(l, x);
    }
    assert Incoming(net, m, x) == Incoming(net, l, x) && Incoming(net, m, y) == Incoming(net, l, y);
  }

  lemma CellStep(net: Net, l: Link, ev: Event)
    ensures var x := ev.side;
      var (m, out) := Step(net, l, ev);
      && m.At(x.Peer()).cell == l.At(x.Peer()).cell
      && match ev
         case Seal(_, message, next) =>
           && (out == Blocked <==> l.At(x).sending.Some?)
           && if out == Blocked then m == l
              else
                var (cell, r) := SealItem(net, l.At(x).cell, next, message);
                m.At(x).cell == cell && out == if r.Ok? then Stepped else Failed(r.error)
         case Open(_) =>
           && (out == Blocked <==> l.At(x).reading.None?)
           && if out == Blocked then m == l
              else
                var (cell, r) := OpenItem(net, l.At(x).cell, l.At(x).reading.value);
                m.At(x).cell == cell && out == if r.Ok? then Received(r.value) else Failed(r.error)
         case _ => m.At(x).cell == l.At(x).cell && !out.Received? && (out.Failed? ==> ev.Write? && out.error.TooLarge?)
  {
  }

  lemma StepView(net: Net, l: Link, ev: Event)
    ensures ViewNext(net, ev, Step(net, l, ev).1, Look(net, l), Look(net, Step(net, l, ev).0))
    ensures ev.Seal? ==> (Step(net, l, ev).1 == Blocked <==> l.At(ev.side).sending.Some?)
    ensures ev.Open? ==> (Step(net, l, ev).1 == Blocked <==> l.At(ev.side).reading.None?)
  {
    IncomingStep(net, l, ev);
    CellStep(net, l, ev);
  }
}
