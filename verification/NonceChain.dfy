/**
 The invariant of the runs that work. The packets in flight all go one way and form a
 chain: the first is sealed under the receiver's cell, each carries the nonce that seals
 the next, and the last carries the sender's cell.
 */
module NonceChain {
  import opened Wrappers
  import opened Crypto
  import opened NonceLink
  import opened Fifo

  /** The cell after opening the whole queue, or None as soon as one packet does not open. */
  function End(cell: Option<Nonce>, queue: seq<Item>): Option<Nonce>
    decreases |queue|
  {
    if queue == [] then cell
    else if cell == Some(queue[0].under) then End(Some(queue[0].next), queue[1..])
    else None
  }

  lemma {:induction false} EndAppend(cell: Option<Nonce>, queue: seq<Item>, i: Item)
    ensures End(cell, queue + [i]) == if End(cell, queue) == Some(i.under) then Some(i.next) else None
    decreases |queue|
  {
    if queue != [] {
      assert (queue + [i])[1..] == queue[1..] + [i];
      EndAppend(Some(queue[0].next), queue[1..], i);
    } else {
      assert queue + [i] == [i];
    }
  }

  /** Nothing is on the way to the sender, and the packets to the receiver chain its cell to the sender's. */
  predicate Chained(receiver: View, sender: View) {
    sender.cell.Some? && sender.queue == [] && End(receiver.cell, receiver.queue) == sender.cell
  }

  predicate Synced(v: Views) {
    Chained(v.client, v.server) || Chained(v.server, v.client)
  }

  /** Per direction: what was sent is what was received and then what is in transit. */
  predicate Conserved(l: Link) {
    forall x: Side :: l.At(x.Peer()).sent == l.At(x).received + InTransit(l, x)
  }

  predicate Healthy(net: Net, l: Link) {
    Conserved(l) && (net.Encrypted() ==> Synced(Look(net, l)))
  }

  /** With a cipher a message must fit and must not cross; without one every event will do. */
  predicate Safe(net: Net, l: Link, ev: Event) {
    net.Encrypted() && ev.Seal? && l.At(ev.side).sending.None? ==>
      Fitting(net, ev) && Incoming(net, l, ev.side) == []
  }

  predicate AllSafe(net: Net, l: Link, evs: seq<Event>)
    decreases |evs|
  {
    evs == [] || (Safe(net, l, evs[0]) && AllSafe(net, Step(net, l, evs[0]).0, evs[1..]))
  }

  lemma StartHealthy(net: Net, cell: Option<Nonce>)
    requires net.Encrypted() ==> cell.Some?
    ensures Healthy(net, Start(cell))
    ensures Abstract(net, Start(cell)) == EMPTY
  {
  }

  lemma SyncedView(net: Net, ev: Event, out: Outcome, v: Views, w: Views)
    requires net.Encrypted() && Synced(v) && ViewNext(net, ev, out, v, w)
    requires ev.Seal? && out != Blocked ==> Fitting(net, ev) && v.At(ev.side).queue == []
    ensures Synced(w)
    ensures out.Failed? ==> ev.Write? && out.error.TooLarge?
  {
    var x := ev.side;
    var y := x.Peer();
    assert Chained(v.At(x), v.At(y)) || Chained(v.At(y), v.At(x));
    if ev.Seal? && out != Blocked {
      EndAppend(v.At(y).cell, v.At(y).queue, Item(v.At(x).cell.value, ev.next, ev.message));
      assert Chained(w.At(y), w.At(x));
    } else if ev.Open? && out != Blocked {
      assert Chained(w.At(x), w.At(y));
    }
  }

  lemma SyncedStep(net: Net, l: Link, ev: Event)
    requires net.Encrypted() && Synced(Look(net, l)) && Safe(net, l, ev)
    ensures Synced(Look(net, Step(net, l, ev).0))
    ensures var out := Step(net, l, ev).1;
      out.Failed? ==> ev.Write? && out.error.TooLarge?
  {
    StepView(net, l, ev);
    assert Look(net, l).At(ev.side).queue == Incoming(net, l, ev.side);
    SyncedView(net, ev, Step(net, l, ev).1, Look(net, l), Look(net, Step(net, l, ev).0));
  }

  lemma {:induction false} MessagesConcat(a: seq<Item>, b: seq<Item>)
    ensures Messages(a + b) == Messages(a) + Messages(b)
    decreases |a|
  {
    if a == [] {
      assert a + b == b;
    } else {
      assert (a + b)[1..] == a[1..] + b;
      MessagesConcat(a[1..], b);
    }
  }

  lemma ReadPipe(net: Net, l: Link, ev: Event)
    requires ev.Read?
    ensures var m := Step(net, l, ev).0;
      Pipe(m, ev.side) == Pipe(l, ev.side) && Pipe(m, ev.side.Peer()) == Pipe(l, ev.side.Peer())
  {
    var x := ev.side;
    if l.At(x).reading.None? && l.At(x.Peer()).wire != [] {
      var wire := l.At(x.Peer()).wire;
      assert [] + wire == [wire[0]] + wire[1..];
    }
  }

  lemma WritePipe(net: Net, l: Link, ev: Event)
    requires ev.Write?
    ensures var (m, out) := Step(net, l, ev);
      && Pipe(m, ev.side) == Pipe(l, ev.side)
      && (out.Sent? ==> l.At(ev.side).sending.Some? && out.message == l.At(ev.side).sending.value.message)
      && Pipe(m, ev.side.Peer()) ==
         Pipe(l, ev.side.Peer()) + (if out.Sent? then [l.At(ev.side).sending.value] else [])
  {
    assert Pipe(l, ev.side.Peer()) + [] == Pipe(l, ev.side.Peer());
  }

  lemma OpenPipe(net: Net, l: Link, ev: Event)
    requires ev.Open?
    ensures var (m, out) := Step(net, l, ev);
      && Pipe(m, ev.side.Peer()) == Pipe(l, ev.side.Peer())
      && if out == Blocked then Pipe(m, ev.side) == Pipe(l, ev.side)
         else
           && Pipe(l, ev.side) != [] && Pipe(m, ev.side) == Pipe(l, ev.side)[1..]
           && (out.Received? ==> out.message == Pipe(l, ev.side)[0].message)
  {
    CellStep(net, l, ev);
  }

  /** What an event does to the packets written and not yet opened, in both directions. */
  lemma PipeStep(net: Net, l: Link, ev: Event)
    ensures var x := ev.side;
      var y := x.Peer();
      var (m, out) := Step(net, l, ev);
      && (out.Sent? ==> l.At(x).sending.Some? && out.message == l.At(x).sending.value.message)
      && Pipe(m, y) == Pipe(l, y) + (if out.Sent? then [l.At(x).sending.value] else [])
      && (if ev.Open? && out != Blocked
          then
            && Pipe(l, x) != [] && Pipe(m, x) == Pipe(l, x)[1..]
            && (out.Received? ==> out.message == Pipe(l, x)[0].message)
          else Pipe(m, x) == Pipe(l, x) && !out.Received?)
  {
    assert Pipe(l, ev.side.Peer()) + [] == Pipe(l, ev.side.Peer());
    match ev
    case Seal(_, _, _) =>
    case Write(_) => WritePipe(net, l, ev);
    case Read(_) => ReadPipe(net, l, ev);
    case Open(_) => OpenPipe(net, l, ev);
  }

  /** The same for the messages in transit. */
  lemma TransitStep(net: Net, l: Link, ev: Event)
    ensures var x := ev.side;
      var (m, out) := Step(net, l, ev);
      && InTransit(m, x.Peer()) == InTransit(l, x.Peer()) + (if out.Sent? then [out.message] else [])
      && (if out.Received? then InTransit(l, x) == [out.message] + InTransit(m, x)
          else (ev.Open? && out.Failed?) || InTransit(m, x) == InTransit(l, x))
  {
    PipeStep(net, l, ev);
    var (m, out) := Step(net, l, ev);
    if out.Sent? {
      MessagesConcat(Pipe(l, ev.side.Peer()), [l.At(ev.side).sending.value]);
    }
  }

  /** What each event does to the histories and to the send under way. */
  lemma HistoryStep(net: Net, l: Link, ev: Event)
    ensures var x := ev.side;
      var (m, out) := Step(net, l, ev);
      && m.At(x).sent == l.At(x).sent + (if out.Sent? then [out.message] else [])
      && m.At(x).received == l.At(x).received + (if out.Received? then [out.message] else [])
      && m.At(x.Peer()).sent == l.At(x.Peer()).sent
      && m.At(x.Peer()).received == l.At(x.Peer()).received
      && m.At(x.Peer()).sending == l.At(x.Peer()).sending
      && match ev
         case Seal(_, message, _) =>
           if l.At(x).sending.Some? then m == l && out == Blocked
           else if out.Failed? then m.At(x).sending.None?
           else out == Stepped && m.At(x).sending.Some? && m.At(x).sending.value.message == message
         case Write(_) =>
           if l.At(x).sending.None? then m == l && out == Blocked
           else m.At(x).sending.None?
                && (out == Sent(l.At(x).sending.value.message) || (out.Failed? && out.error.TooLarge?))
         case Read(_) => m.At(x).sending == l.At(x).sending && (out == Blocked || out == Stepped)
         case Open(_) => m.At(x).sending == l.At(x).sending && (out == Blocked || out.Received? || out.Failed?)
  {
  }

  lemma MessagesHead(items: seq<Item>)
    requires items != []
    ensures Messages(items) == [items[0].message] + Messages(items[1..])
    ensures Messages(items)[1..] == Messages(items[1..])
  {
  }

  lemma SealQueues(net: Net, l: Link, ev: Event)
    requires ev.Seal? && !Step(net, l, ev).1.Failed?
    ensures FifoStep(net, Abstract(net, l), ev) == (Abstract(net, Step(net, l, ev).0), Step(net, l, ev).1)
  {
  }

  lemma WriteQueues(net: Net, l: Link, ev: Event)
    requires ev.Write?
    ensures FifoStep(net, Abstract(net, l), ev) == (Abstract(net, Step(net, l, ev).0), Step(net, l, ev).1)
  {
    if l.At(ev.side).sending.Some? {
      var i := l.At(ev.side).sending.value;
      MessagesConcat(l.At(ev.side).wire, [i]);
      assert Messages([i]) == [i.message];
    }
  }

  lemma ReadQueues(net: Net, l: Link, ev: Event)
    requires ev.Read?
    ensures FifoStep(net, Abstract(net, l), ev) == (Abstract(net, Step(net, l, ev).0), Step(net, l, ev).1)
  {
    if l.At(ev.side.Peer()).wire != [] {
      MessagesHead(l.At(ev.side.Peer()).wire);
    }
  }

  lemma OpenQueues(net: Net, l: Link, ev: Event)
    requires ev.Open? && (l.At(ev.side).reading.Some? ==>
               Step(net, l, ev).1 == Received(l.At(ev.side).reading.value.message))
    ensures FifoStep(net, Abstract(net, l), ev) == (Abstract(net, Step(net, l, ev).0), Step(net, l, ev).1)
  {
  }

  /** The queues take the same step, with the same outcome. */
  lemma QueuesStep(net: Net, l: Link, ev: Event)
    requires ev.Open? || ev.Seal? ==> !Step(net, l, ev).1.Failed?
    ensures FifoStep(net, Abstract(net, l), ev) == (Abstract(net, Step(net, l, ev).0), Step(net, l, ev).1)
  {
    match ev
    case Seal(_, _, _) => SealQueues(net, l, ev);
    case Write(_) => WriteQueues(net, l, ev);
    case Read(_) => ReadQueues(net, l, ev);
    case Open(_) =>
      CellStep(net, l, ev);
      OpenQueues(net, l, ev);
  }

  /** Nothing is lost or reordered unless an open fails. */
  lemma ConservedStep(net: Net, l: Link, ev: Event)
    requires Conserved(l)
    requires ev.Open? ==> !Step(net, l, ev).1.Failed?
    ensures Conserved(Step(net, l, ev).0)
  {
    TransitStep(net, l, ev);
    HistoryStep(net, l, ev);
    ConservedAt(l, Step(net, l, ev).0, ev.side, Step(net, l, ev).1);
  }

  lemma ConservedAt(l: Link, m: Link, x: Side, out: Outcome)
    requires Conserved(l)
    requires m.At(x).sent == l.At(x).sent + if out.Sent? then [out.message] else []
    requires m.At(x).received == l.At(x).received + if out.Received? then [out.message] else []
    requires m.At(x.Peer()).sent == l.At(x.Peer()).sent
    requires m.At(x.Peer()).received == l.At(x.Peer()).received
    requires InTransit(m, x.Peer()) == InTransit(l, x.Peer()) + if out.Sent? then [out.message] else []
    requires if out.Received? then InTransit(l, x) == [out.message] + InTransit(m, x)
             else InTransit(m, x) == InTransit(l, x)
    ensures Conserved(m)
  {
    var y := x.Peer();
    assert l.At(y).sent == l.At(x).received + InTransit(l, x);
    assert l.At(x).sent == l.At(y).received + InTransit(l, y);
    var extra := if out.Sent? then [out.message] else [];
    var given := if out.Received? then [out.message] else [];
    Regroup(l.At(y).received, InTransit(l, y), extra);
    assert InTransit(l, x) == given + InTransit(m, x);
    Regroup(l.At(x).received, given, InTransit(m, x));
    assert m.At(x).sent == m.At(y).received + InTransit(m, y);
    assert m.At(y).sent == m.At(x).received + InTransit(m, x);
    assert y.Peer() == x;
  }

  lemma Regroup<T>(a: seq<T>, b: seq<T>, c: seq<T>)
    ensures a + b + c == a + (b + c)
  {
  }

  /** A safe event in a healthy state fails in one way only: its message is too large. */
  lemma SafeSucceeds(net: Net, l: Link, ev: Event)
    requires Healthy(net, l) && Safe(net, l, ev)
    ensures ev.Open? || ev.Seal? ==> !Step(net, l, ev).1.Failed?
    ensures net.Encrypted() ==> Synced(Look(net, Step(net, l, ev).0))
  {
    if net.Encrypted() {
      SyncedStep(net, l, ev);
    } else {
      CellStep(net, l, ev);
    }
  }

  lemma HealthyStep(net: Net, l: Link, ev: Event)
    requires Healthy(net, l) && Safe(net, l, ev)
    ensures Healthy(net, Step(net, l, ev).0)
    ensures FifoStep(net, Abstract(net, l), ev) == (Abstract(net, Step(net, l, ev).0), Step(net, l, ev).1)
  {
    SafeSucceeds(net, l, ev);
    ConservedStep(net, l, ev);
    QueuesStep(net, l, ev);
  }

  /**
   The invariant over whole runs: every reachable state is healthy, and the outcomes are
   those of two message queues.
   */
  lemma {:induction false} HealthyRun(net: Net, l: Link, evs: seq<Event>)
    requires Healthy(net, l) && AllSafe(net, l, evs)
    ensures Healthy(net, Exec(net, l, evs))
    ensures Trace(net, l, evs) == FifoTrace(net, Abstract(net, l), evs)
    decreases |evs|
  {
    if evs != [] {
      HealthyStep(net, l, evs[0]);
      HealthyRun(net, Step(net, l, evs[0]).0, evs[1..]);
    }
  }

  /** In a healthy state each side has been given a prefix of what the other sent, whatever was sealed since. */
  lemma ReceivedIsPrefix(net: Net, l: Link, x: Side)
    requires Healthy(net, l)
    ensures l.At(x).received <= l.At(x.Peer()).sent
    ensures Quiet(l) ==> l.At(x).received == l.At(x.Peer()).sent
    ensures Quiet(l) && net.Encrypted() ==> l.client.cell == l.server.cell && l.client.cell.Some?
  {
    if Quiet(l) {
      assert l.At(x.Peer()).wire == [] && l.At(x).reading.None?;
      assert InTransit(l, x) == [];
      assert Incoming(net, l, Client) == [] && Incoming(net, l, Server) == [];
    }
  }

  /** The side with a packet in hand holds the nonce that opens it. */
  lemma HeadOpens(v: Views, x: Side)
    requires Synced(v) && v.At(x).queue != []
    ensures v.At(x).cell == Some(v.At(x).queue[0].under)
  {
    assert Chained(v.At(x), v.At(x.Peer())) || Chained(v.At(x.Peer()), v.At(x));
  }

  lemma HeadOfQueue(net: Net, l: Link, x: Side)
    requires l.At(x).reading.Some?
    ensures Look(net, l).At(x).queue != [] && Look(net, l).At(x).queue[0] == l.At(x).reading.value
    ensures Look(net, l).At(x).cell == l.At(x).cell
  {
  }

  /** In a healthy state the packet that `x` has read always opens. */
  lemma OpenSucceeds(net: Net, l: Link, x: Side)
    requires net.Encrypted() ==> Synced(Look(net, l))
    requires l.At(x).reading.Some?
    ensures Step(net, l, Open(x)).1 == Received(l.At(x).reading.value.message)
  {
    if net.Encrypted() {
      HeadOfQueue(net, l, x);
      HeadOpens(Look(net, l), x);
    }
    CellStep(net, l, Open(x));
  }

  lemma {:induction false} FittingNonCrossingIsSafe(net: Net, l: Link, evs: seq<Event>)
    requires AllFitting(net, evs) && NonCrossing(net, l, evs)
    ensures AllSafe(net, l, evs)
    decreases |evs|
  {
    if evs != [] {
      assert Fitting(net, evs[0]);
      FittingNonCrossingIsSafe(net, Step(net, l, evs[0]).0, evs[1..]);
    }
  }

  predicate PendingFits(net: Net, l: Link) {
    forall x: Side :: l.At(x).sending.Some? ==> net.Fits(x, l.At(x).sending.value.next, l.At(x).sending.value.message)
  }

  lemma PendingStillFits(net: Net, l: Link, ev: Event)
    requires Fitting(net, ev) && PendingFits(net, l)
    ensures PendingFits(net, Step(net, l, ev).0)
    ensures Step(net, l, ev).1.Failed? ==> !Step(net, l, ev).1.error.TooLarge?
  {
    var m := Step(net, l, ev).0;
    forall x: Side | m.At(x).sending.Some?
      ensures net.Fits(x, m.At(x).sending.value.next, m.At(x).sending.value.message)
    {
      assert m.At(x).sending == l.At(x).sending || (ev.Seal? && ev.side == x);
    }
  }

  /** In a run whose messages fit nothing is TooLarge either. */
  lemma {:induction false} FittingRunHasNoTooLarge(net: Net, l: Link, evs: seq<Event>)
    requires AllFitting(net, evs) && PendingFits(net, l)
    ensures forall k :: 0 <= k < |evs| && Trace(net, l, evs)[k].Failed? ==> !Trace(net, l, evs)[k].error.TooLarge?
    decreases |evs|
  {
    if evs != [] {
      assert Fitting(net, evs[0]);
      var (m, out) := Step(net, l, evs[0]);
      PendingStillFits(net, l, evs[0]);
      FittingRunHasNoTooLarge(net, m, evs[1..]);
      assert Trace(net, l, evs) == [out] + Trace(net, m, evs[1..]);
    }
  }
}
