/**
 What the link is for: two independent queues of messages, one in each direction. They fix
 every outcome: a message is refused iff its packet is above the sender's limit, a read
 waits iff the reader's hand is full or the queue is empty, and an open waits iff the hand is
 empty and otherwise gives the message in it.
 */
module Fifo {
  import opened Wrappers
  import opened Wire
  import opened NonceLink

  /** A message under way, with the size of the packet that carries it. */
  datatype Parcel = Parcel(message: Bytes, size: nat)

  /** One direction: the send under way, the messages sent and not yet read, and the one read and not yet opened. */
  datatype Lane = Lane(pending: Option<Parcel>, queue: seq<Bytes>, hand: Option<Bytes>)

  datatype Queues = Queues(fromClient: Lane, fromServer: Lane) {

    function From(x: Side): Lane {
      if x.Client? then fromClient else fromServer
    }

    function With(x: Side, lane: Lane): Queues {
      if x.Client? then this.(fromClient := lane) else this.(fromServer := lane)
    }
  }

  const EMPTY := Queues(Lane(None, [], None), Lane(None, [], None))

  function FifoStep(net: Net, q: Queues, ev: Event): (Queues, Outcome) {
    var x := ev.side;
    var y := x.Peer();
    var mine, theirs := q.From(x), q.From(y);
    match ev
    case Seal(_, message, next) =>
      if mine.pending.Some? then (q, Blocked)
      else (q.With(x, mine.(pending := Some(Parcel(message, net.stack.PacketSize(next, message))))), Stepped)
    case Write(_) =>
      if mine.pending.None? then (q, Blocked)
      else
        var Parcel(message, size) := mine.pending.value;
        if size > net.Limit(x) then (q.With(x, mine.(pending := None)), Failed(TooLarge(size, net.Limit(x))))
        else (q.With(x, mine.(pending := None, queue := mine.queue + [message])), Sent(message))
    case Read(_) =>
      if theirs.hand.Some? || theirs.queue == [] then (q, Blocked)
      else (q.With(y, theirs.(queue := theirs.queue[1..], hand := Some(theirs.queue[0]))), Stepped)
    case Open(_) =>
      if theirs.hand.None? then (q, Blocked)
      else (q.With(y, theirs.(hand := None)), Received(theirs.hand.value))
  }

  /** The outcomes of a run of the two queues. */
  function FifoTrace(net: Net, q: Queues, evs: seq<Event>): (outs: seq<Outcome>)
    ensures |outs| == |evs|
    decreases |evs|
  {
    if evs == [] then []
    else
      var (r, out) := FifoStep(net, q, evs[0]);
      [out] + FifoTrace(net, r, evs[1..])
  }

  /** The queues that a state of the link stands for. */
  function Abstract(net: Net, l: Link): Queues {
    Queues(LaneOf(net, l, Client), LaneOf(net, l, Server))
  }

  function LaneOf(net: Net, l: Link, x: Side): Lane {
    var sending, reading := l.At(x).sending, l.At(x.Peer()).reading;
    Lane(if sending.Some? then Some(ParcelOf(net, sending.value)) else None,
         Messages(l.At(x).wire),
         if reading.Some? then Some(reading.value.message) else None)
  }

  function ParcelOf(net: Net, i: Item): Parcel {
    Parcel(i.message, net.stack.PacketSize(i.next, i.message))
  }

  /** The queues fail in one way only: a message that is too large. */
  lemma {:induction false} FifoHasNoFault(net: Net, q: Queues, evs: seq<Event>, k: nat)
    requires k < |evs|
    ensures FifoTrace(net, q, evs)[k].Failed? ==> FifoTrace(net, q, evs)[k].error.TooLarge?
    decreases |evs|
  {
    if k > 0 {
      FifoHasNoFault(net, FifoStep(net, q, evs[0]).0, evs[1..], k - 1);
    }
  }
}
