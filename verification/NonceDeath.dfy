/**
 What the first unsafe event does to an encrypted link. Nothing that is sealed from then on
 is ever delivered, in either direction; after a crossing nothing at all is.
 */
module NonceDeath {
  import opened Wrappers
  import opened Wire
  import opened Crypto
  import opened NonceLink
  import opened NonceChain

  predicate Within(queue: seq<Item>, used: set<Nonce>) {
    forall k :: 0 <= k < |queue| ==> queue[k].under in used && queue[k].next in used
  }

  /** Every nonce in a cell or on the way is one of `used`. */
  predicate Known(v: Views, used: set<Nonce>) {
    forall x: Side :: (v.At(x).cell.Some? ==> v.At(x).cell.value in used) && Within(v.At(x).queue, used)
  }

  /** No packet on the way was sealed under the nonce that its sender's cell holds now. */
  predicate Novel(v: Views) {
    NovelAt(v.client.queue, v.server.cell) && NovelAt(v.server.queue, v.client.cell)
  }

  predicate NovelAt(queue: seq<Item>, senderCell: Option<Nonce>) {
    forall k :: 0 <= k < |queue| ==> senderCell != Some(queue[k].under)
  }

  /** The state of an encrypted link before its first unsafe event. */
  predicate Live(v: Views, used: set<Nonce>) {
    Synced(v) && Known(v, used) && Novel(v)
  }

  /** In a live link both cells are occupied. */
  lemma SenderHolds(v: Views, x: Side, used: set<Nonce>)
    requires Live(v, used)
    ensures v.At(x).cell.Some?
  {
    assert Chained(v.At(x), v.At(x.Peer())) || Chained(v.At(x.Peer()), v.At(x));
  }

  /** Neither side can open the next packet on its way or, when none is, the one that its peer would seal now. */
  predicate Mute(v: Views) {
    MuteAt(v.client, v.server.cell) && MuteAt(v.server, v.client.cell)
  }

  predicate MuteAt(v: View, peerCell: Option<Nonce>) {
    v.cell.Some? ==> v.cell != if v.queue == [] then peerCell else Some(v.queue[0].under)
  }

  /** The packets that open before the first that does not. */
  function Openable(cell: Option<Nonce>, queue: seq<Item>): (r: seq<Item>)
    ensures r <= queue
    decreases |queue|
  {
    if queue != [] && cell == Some(queue[0].under) then [queue[0]] + Openable(Some(queue[0].next), queue[1..]) else []
  }

  /** The nonces that the cell goes through while those packets are opened. */
  function Reach(cell: Option<Nonce>, queue: seq<Item>): set<Nonce>
    decreases |queue|
  {
    (if cell.Some? then {cell.value} else {}) +
    (if queue != [] && cell == Some(queue[0].under) then Reach(Some(queue[0].next), queue[1..]) else {})
  }

  predicate DeadAt(mine: View, peer: View) {
    var e := End(mine.cell, mine.queue);
    e.Some? ==> e.value !in Reach(peer.cell, peer.queue)
  }

  /** Neither side can ever come to hold the nonce that the other waits for. */
  predicate Dead(v: Views) {
    DeadAt(v.client, v.server) && DeadAt(v.server, v.client)
  }

  /** What a side can still be given. */
  function Due(v: View): seq<Bytes> {
    Messages(Openable(v.cell, v.queue))
  }

  // Queues and cells

  lemma {:induction false} QueueAppend(cell: Option<Nonce>, queue: seq<Item>, i: Item)
    requires End(cell, queue) != Some(i.under)
    ensures End(cell, queue + [i]) == None
    ensures Openable(cell, queue + [i]) == Openable(cell, queue)
    ensures Reach(cell, queue + [i]) == Reach(cell, queue)
    decreases |queue|
  {
    if queue == [] {
      assert queue + [i] == [i];
    } else {
      assert (queue + [i])[1..] == queue[1..] + [i];
      if cell == Some(queue[0].under) {
        QueueAppend(Some(queue[0].next), queue[1..], i);
      }
    }
  }

  lemma {:induction false} ReachBasics(cell: Option<Nonce>, queue: seq<Item>, used: set<Nonce>)
    requires Within(queue, used) && (cell.Some? ==> cell.value in used)
    ensures Reach(cell, queue) <= used
    ensures cell.Some? ==> cell.value in Reach(cell, queue)
    ensures End(cell, queue).Some? ==> End(cell, queue).value in Reach(cell, queue)
    decreases |queue|
  {
    if queue != [] && cell == Some(queue[0].under) {
      ReachBasics(Some(queue[0].next), queue[1..], used);
    }
  }

  /** A cell with a nonce that no packet was sealed under opens none of them. */
  lemma NewCell(next: Nonce, queue: seq<Item>, used: set<Nonce>)
    requires Within(queue, used) && next !in used
    ensures Reach(Some(next), queue) == {next}
    ensures Openable(Some(next), queue) == []
    ensures End(Some(next), queue) == if queue == [] then Some(next) else None
  {
  }

  lemma EmptyCell(queue: seq<Item>)
    ensures Reach(None, queue) == {} && Openable(None, queue) == [] && End(None, queue) == None
  {
  }

  // One event

  lemma KnownView(net: Net, ev: Event, out: Outcome, v: Views, w: Views, used: set<Nonce>)
    requires net.Encrypted() && Known(v, used) && ViewNext(net, ev, out, v, w)
    ensures Known(w, used + Drawn(ev))
  {
    var x := ev.side;
    var y := x.Peer();
    assert Within(v.At(x).queue, used) && Within(v.At(y).queue, used);
    assert Within(w.At(x).queue, used + Drawn(ev));
    assert Within(w.At(y).queue, used + Drawn(ev));
  }

  lemma LiveView(net: Net, ev: Event, out: Outcome, v: Views, w: Views, used: set<Nonce>)
    requires net.Encrypted() && Live(v, used) && ViewNext(net, ev, out, v, w)
    requires ev.Seal? && out != Blocked ==> Fitting(net, ev) && v.At(ev.side).queue == []
    requires ev.Seal? ==> ev.next !in used
    ensures Live(w, used + Drawn(ev))
  {
    SyncedView(net, ev, out, v, w);
    KnownView(net, ev, out, v, w, used);
    var x := ev.side;
    var y := x.Peer();
    assert Within(v.At(y).queue, used);
    assert NovelAt(v.At(x).queue, v.At(y).cell) && NovelAt(v.At(y).queue, v.At(x).cell);
    assert NovelAt(w.At(x).queue, w.At(y).cell);
    assert NovelAt(w.At(y).queue, w.At(x).cell);
  }

  /** A muted link stays muted, whatever is sealed, and every open fails. */
  lemma MuteView(net: Net, ev: Event, out: Outcome, v: Views, w: Views, used: set<Nonce>)
    requires net.Encrypted() && Mute(v) && Known(v, used) && ViewNext(net, ev, out, v, w)
    requires ev.Seal? ==> ev.next !in used
    ensures Mute(w) && !out.Received?
    ensures ev.Open? && out != Blocked ==>
              w.At(ev.side).cell == None && out == Failed(if v.At(ev.side).cell.Some? then AES else Broken)
    ensures forall x: Side :: v.At(x).queue != [] && !(ev.Open? && out.Failed?) ==> w.At(x).queue != []
  {
    var x := ev.side;
    var y := x.Peer();
    assert MuteAt(v.At(x), v.At(y).cell) && MuteAt(v.At(y), v.At(x).cell) && Within(v.At(x).queue, used);
    assert v.At(y).cell.Some? ==> v.At(y).cell.value in used;
    assert MuteAt(w.At(x), w.At(y).cell) && MuteAt(w.At(y), w.At(x).cell);
  }

  /** A seal while a packet is on the way mutes the link in both directions, whatever becomes of the message. */
  lemma CrossingMutes(net: Net, ev: Event, out: Outcome, v: Views, w: Views, used: set<Nonce>)
    requires net.Encrypted() && Live(v, used) && ViewNext(net, ev, out, v, w)
    requires ev.Seal? && out != Blocked && v.At(ev.side).queue != [] && ev.next !in used
    ensures Mute(w) && w.At(ev.side).queue != []
    ensures w.At(ev.side.Peer()).cell.Some? && (net.stack.Sealable(ev.next, ev.message) ==> w.At(ev.side).cell.Some?)
  {
    var x := ev.side;
    var y := x.Peer();
    var head := v.At(x).queue[0];
    assert Within(v.At(x).queue, used) && head.under in used;
    assert Chained(v.At(x), v.At(y));
    assert NovelAt(v.At(x).queue, v.At(y).cell);
    assert v.At(x).cell == Some(head.under) && v.At(y).cell.value in used;
    assert MuteAt(w.At(x), w.At(y).cell) && MuteAt(w.At(y), w.At(x).cell);
  }

  /** In a dead link nothing sealed from now on becomes due. */
  lemma DeadView(net: Net, ev: Event, out: Outcome, v: Views, w: Views, used: set<Nonce>)
    requires net.Encrypted() && Dead(v) && Known(v, used) && ViewNext(net, ev, out, v, w)
    requires ev.Seal? ==> ev.next !in used
    ensures Dead(w)
    ensures var x := ev.side;
      && Due(w.At(x.Peer())) == Due(v.At(x.Peer()))
      && (if out.Received? then Due(v.At(x)) == [out.message] + Due(w.At(x))
          else Due(w.At(x)) == Due(v.At(x)) || Due(w.At(x)) == [])
  {
    var x := ev.side;
    var y := x.Peer();
    var a, b := v.At(x), v.At(y);
    assert DeadAt(a, b) && DeadAt(b, a) && Within(a.queue, used) && Within(b.queue, used);
    ReachBasics(a.cell, a.queue, used);
    ReachBasics(b.cell, b.queue, used);
    if ev.Seal? && out != Blocked {
      if out == Stepped {
        NewCell(ev.next, a.queue, used);
        QueueAppend(b.cell, b.queue, Item(a.cell.value, ev.next, ev.message));
        assert w.At(y).queue == b.queue || w.At(y).queue == b.queue + [Item(a.cell.value, ev.next, ev.message)];
      } else {
        EmptyCell(a.queue);
        assert w.At(y).queue == b.queue;
      }
    } else if ev.Open? && out != Blocked {
      if out.Failed? {
        EmptyCell(a.queue[1..]);
      }
    }
    assert DeadAt(w.At(x), w.At(y)) && DeadAt(w.At(y), w.At(x));
  }

  /** The first unsafe event kills the link, and what is still due was sealed before it. */
  lemma UnsafeKills(net: Net, ev: Event, out: Outcome, v: Views, w: Views, used: set<Nonce>)
    requires net.Encrypted() && Live(v, used) && ViewNext(net, ev, out, v, w)
    requires ev.Seal? && out != Blocked && ev.next !in used
    requires !Fitting(net, ev) || v.At(ev.side).queue != []
    ensures Dead(w)
    ensures forall x: Side :: Due(w.At(x)) <= Messages(v.At(x).queue)
  {
    var x := ev.side;
    var y := x.Peer();
    var a, b := v.At(x), v.At(y);
    assert Within(a.queue, used) && Within(b.queue, used);
    assert Chained(a, b) || Chained(b, a);
    assert NovelAt(a.queue, b.cell);
    ReachBasics(b.cell, b.queue, used);
    if out == Stepped {
      NewCell(ev.next, a.queue, used);
      var i := Item(a.cell.value, ev.next, ev.message);
      if a.queue != [] {
        assert Chained(a, b);
        QueueAppend(b.cell, b.queue, i);
      }
      assert w.At(y).queue == b.queue || (a.queue != [] && w.At(y).queue == b.queue + [i]);
    } else {
      EmptyCell(a.queue);
      assert w.At(y).queue == b.queue;
    }
    assert DeadAt(w.At(x), w.At(y)) && DeadAt(w.At(y), w.At(x));
    assert Openable(w.At(y).cell, w.At(y).queue) == Openable(b.cell, b.queue);
    MessagesPrefix(Openable(b.cell, b.queue), b.queue);
  }

  lemma MessagesPrefix(a: seq<Item>, b: seq<Item>)
    requires a <= b
    ensures Messages(a) <= Messages(b)
  {
    assert b == a + b[|a|..];
    MessagesConcat(a, b[|a|..]);
  }
}
