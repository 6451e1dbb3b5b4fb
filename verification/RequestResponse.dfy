/**
 Request and response over one cipher cell (`handler_send_recv`): the side that starts loops
 over a send and a receive, its peer over a receive and a send, and the two loops run
 concurrently, under any schedule.
 */
module RequestResponse {
  import opened Wrappers
  import opened Wire
  import opened Crypto
  import opened NonceLink
  import opened NonceChain
  import opened NonceDeath
  import opened LinkRuns

  /** A message with the nonce that its send draws. */
  datatype Draft = Draft(message: Bytes, next: Nonce)

  /** What the two loops send, message after message. */
  datatype Dialogue = Dialogue(client: nat -> Draft, server: nat -> Draft) {

    function At(x: Side): nat -> Draft {
      if x.Client? then client else server
    }
  }

  /** The next step of a loop; the side that starts begins at `Sealing`, its peer at `Reading`. */
  datatype Stage = Sealing | Writing | Reading | Opening {

    function Next(): Stage {
      match this
      case Sealing => Writing
      case Writing => Reading
      case Reading => Opening
      case Opening => Sealing
    }
  }

  /** Where a side is in its loop, and how many messages it has sealed. */
  datatype Place = Place(stage: Stage, sealed: nat) {

    function Next(): Place {
      Place(stage.Next(), if stage.Sealing? then sealed + 1 else sealed)
    }
  }

  datatype Places = Places(client: Place, server: Place) {

    function At(x: Side): Place {
      if x.Client? then client else server
    }

    function With(x: Side, p: Place): Places {
      if x.Client? then this.(client := p) else this.(server := p)
    }
  }

  /** The only event that the loop of `x` can offer at `p`. */
  function Turn(d: Dialogue, x: Side, p: Place): Event {
    match p.stage
    case Sealing => Seal(x, d.At(x)(p.sealed).message, d.At(x)(p.sealed).next)
    case Writing => Write(x)
    case Reading => Read(x)
    case Opening => Open(x)
  }

  /** A side that is blocked offers the same event again. */
  function Proceed(at: Places, x: Side, out: Outcome): Places {
    if out == Blocked then at else at.With(x, at.At(x).Next())
  }

  /** Each side's events are those of its loop; who comes next is free. */
  predicate Follows(net: Net, d: Dialogue, l: Link, at: Places, evs: seq<Event>)
    decreases |evs|
  {
    evs == [] ||
    (var (m, out) := Step(net, l, evs[0]);
     var x := evs[0].side;
     evs[0] == Turn(d, x, at.At(x)) && Follows(net, d, m, Proceed(at, x, out), evs[1..]))
  }

  function PlacesAfter(net: Net, l: Link, at: Places, evs: seq<Event>): Places
    decreases |evs|
  {
    if evs == [] then at
    else
      var (m, out) := Step(net, l, evs[0]);
      PlacesAfter(net, m, Proceed(at, evs[0].side, out), evs[1..])
  }

  /** Both loops at the start of the round with this number. */
  function RoundStart(x: Side, round: nat): Places {
    var p := Place(Sealing, round);
    Places(p, p).With(x.Peer(), Place(Reading, round))
  }

  /** How many events were done. */
  function Moves(outs: seq<Outcome>): nat {
    if outs == [] then 0 else (if outs[0] == Blocked then 0 else 1) + Moves(outs[1..])
  }

  /** The first `n` messages of a loop. */
  function Said(drafts: nat -> Draft, n: nat): seq<Bytes> {
    if n == 0 then [] else Said(drafts, n - 1) + [drafts(n - 1).message]
  }

  /** Nothing under way, and equal cells. */
  predicate Resting(net: Net, l: Link) {
    && l.client.cell == l.server.cell
    && (net.Encrypted() ==> l.client.cell.Some?)
    && Idle(l.client) && Idle(l.server)
  }

  predicate Idle(p: Port) {
    p.sending.None? && p.wire == [] && p.reading.None?
  }

  // The order that the two loops impose on each other

  /**
   Where the two loops are together: `speaker` is passing a message on, which is at `leg`; it
   has passed on `spoken` messages before, and its peer `heard`.
   */
  datatype Moment = Moment(speaker: Side, leg: Stage, spoken: nat, heard: nat) {

    function Next(): Moment {
      if leg.Opening? then Moment(speaker.Peer(), Sealing, heard, spoken + 1) else this.(leg := leg.Next())
    }

    /** The side whose turn it is: the other one waits for a packet. */
    function Mover(): Side {
      if leg.Sealing? || leg.Writing? then speaker else speaker.Peer()
    }
  }

  /** The moment after `step` moves of the round with this number, of a dialogue that `x` starts: a round has eight. */
  function MomentIn(x: Side, round: nat, step: nat): Moment {
    match step
    case 0 => Moment(x, Sealing, round, round)
    case 1 => Moment(x, Writing, round, round)
    case 2 => Moment(x, Reading, round, round)
    case 3 => Moment(x, Opening, round, round)
    case 4 => Moment(x.Peer(), Sealing, round, round + 1)
    case 5 => Moment(x.Peer(), Writing, round, round + 1)
    case 6 => Moment(x.Peer(), Reading, round, round + 1)
    case _ => Moment(x.Peer(), Opening, round, round + 1)
  }

  function MomentAt(x: Side, n: nat): Moment {
    MomentIn(x, n / 8, n % 8)
  }

  lemma Octets(n: nat)
    ensures n == 8 * (n / 8) + n % 8 && n % 8 < 8
    ensures if n % 8 == 7 then (n + 1) / 8 == n / 8 + 1 && (n + 1) % 8 == 0
            else (n + 1) / 8 == n / 8 && (n + 1) % 8 == n % 8 + 1
    ensures (n + 4) / 8 == if n % 8 < 4 then n / 8 else n / 8 + 1
  {
  }

  lemma MomentNext(x: Side, n: nat)
    ensures MomentAt(x, n + 1) == MomentAt(x, n).Next()
  {
    Octets(n);
    assert x.Peer().Peer() == x;
  }

  predicate PlacesStand(m: Moment, at: Places) {
    && at.At(m.speaker) == Place(if m.leg.Opening? then Reading else m.leg, m.spoken + if m.leg.Sealing? then 0 else 1)
    && at.At(m.speaker.Peer()) == Place(if m.leg.Opening? then Opening else Reading, m.heard)
  }

  /** The message of this moment, and the cells on its two nonces. */
  predicate Carries(net: Net, d: Dialogue, m: Moment, speaker: Port, listener: Port, i: Item) {
    && i.message == d.At(m.speaker)(m.spoken).message
    && if net.Encrypted() then listener.cell == Some(i.under) && speaker.cell == Some(i.next)
       else speaker.cell == listener.cell
  }

  predicate PortsStand(net: Net, d: Dialogue, m: Moment, speaker: Port, listener: Port) {
    && speaker.reading.None? && listener.sending.None? && listener.wire == []
    && match m.leg
       case Sealing =>
         && Idle(speaker) && Idle(listener)
         && speaker.cell == listener.cell && (net.Encrypted() ==> speaker.cell.Some?)
       case Writing =>
         && listener.reading.None? && speaker.wire == []
         && speaker.sending.Some? && Carries(net, d, m, speaker, listener, speaker.sending.value)
         && net.Fits(m.speaker, speaker.sending.value.next, speaker.sending.value.message)
       case Reading =>
         && listener.reading.None? && speaker.sending.None?
         && |speaker.wire| == 1 && Carries(net, d, m, speaker, listener, speaker.wire[0])
       case Opening =>
         && speaker.wire == [] && speaker.sending.None?
         && listener.reading.Some? && Carries(net, d, m, speaker, listener, listener.reading.value)
  }

  /** What each side has been given since `base`: all that the other has passed on. */
  predicate HistoryStands(d: Dialogue, base: Link, m: Moment, l: Link) {
    var x, y := m.speaker, m.speaker.Peer();
    && l.At(y).received == base.At(y).received + Said(d.At(x), m.spoken)
    && l.At(x).received == base.At(x).received + Said(d.At(y), m.heard)
  }

  predicate Stands(net: Net, d: Dialogue, base: Link, m: Moment, l: Link, at: Places) {
    && PlacesStand(m, at)
    && PortsStand(net, d, m, l.At(m.speaker), l.At(m.speaker.Peer()))
    && HistoryStands(d, base, m, l)
  }

  lemma SealStands(net: Net, d: Dialogue, m: Moment, l: Link, at: Places)
    requires m.leg.Sealing? && PlacesStand(m, at) && Fitting(net, Turn(d, m.speaker, at.At(m.speaker)))
    requires PortsStand(net, d, m, l.At(m.speaker), l.At(m.speaker.Peer()))
    ensures var ev := Turn(d, m.speaker, at.At(m.speaker));
      var (n, out) := Step(net, l, ev);
      && out == Stepped && !Crosses(net, l, ev)
      && PortsStand(net, d, m.Next(), n.At(m.speaker), n.At(m.speaker.Peer()))
  {
    assert Incoming(net, l, m.speaker) == [];
  }

  lemma WriteStands(net: Net, d: Dialogue, m: Moment, l: Link)
    requires m.leg.Writing? && PortsStand(net, d, m, l.At(m.speaker), l.At(m.speaker.Peer()))
    ensures var (n, out) := Step(net, l, Write(m.speaker));
      out.Sent? && PortsStand(net, d, m.Next(), n.At(m.speaker), n.At(m.speaker.Peer()))
  {
  }

  lemma ReadStands(net: Net, d: Dialogue, m: Moment, l: Link)
    requires m.leg.Reading? && PortsStand(net, d, m, l.At(m.speaker), l.At(m.speaker.Peer()))
    ensures var (n, out) := Step(net, l, Read(m.speaker.Peer()));
      out == Stepped && PortsStand(net, d, m.Next(), n.At(m.speaker), n.At(m.speaker.Peer()))
  {
  }

  lemma OpenStands(net: Net, d: Dialogue, m: Moment, l: Link)
    requires m.leg.Opening? && PortsStand(net, d, m, l.At(m.speaker), l.At(m.speaker.Peer()))
    ensures var (n, out) := Step(net, l, Open(m.speaker.Peer()));
      && out == Received(d.At(m.speaker)(m.spoken).message)
      && PortsStand(net, d, m.Next(), n.At(m.speaker.Peer()), n.At(m.speaker))
  {
    assert m.speaker.Peer().Peer() == m.speaker;
  }

  /** The turn of the mover is done, and the dialogue is at its next moment. */
  lemma MoverMoves(net: Net, d: Dialogue, base: Link, m: Moment, l: Link, at: Places)
    requires Stands(net, d, base, m, l, at) && Fitting(net, Turn(d, m.Mover(), at.At(m.Mover())))
    ensures var x := m.Mover();
      var ev := Turn(d, x, at.At(x));
      var (n, out) := Step(net, l, ev);
      && out != Blocked && !out.Failed? && !Crosses(net, l, ev)
      && Stands(net, d, base, m.Next(), n, Proceed(at, x, out))
  {
    var x := m.Mover();
    var ev := Turn(d, x, at.At(x));
    var (n, out) := Step(net, l, ev);
    HistoryStep(net, l, ev);
    assert m.speaker.Peer().Peer() == m.speaker;
    match m.leg
    case Sealing => SealStands(net, d, m, l, at);
    case Writing => WriteStands(net, d, m, l);
    case Reading => ReadStands(net, d, m, l);
    case Opening => OpenStands(net, d, m, l);
    MoverHistory(d, base, m, l, n, out);
    assert PlacesStand(m.Next(), Proceed(at, x, out));
  }

  lemma MoverHistory(d: Dialogue, base: Link, m: Moment, l: Link, n: Link, out: Outcome)
    requires HistoryStands(d, base, m, l)
    requires out.Received? <==> m.leg.Opening?
    requires out.Received? ==> out.message == d.At(m.speaker)(m.spoken).message
    requires n.At(m.Mover()).received == l.At(m.Mover()).received + if out.Received? then [out.message] else []
    requires n.At(m.Mover().Peer()).received == l.At(m.Mover().Peer()).received
    ensures HistoryStands(d, base, m.Next(), n)
  {
    var x, y := m.speaker, m.speaker.Peer();
    assert y.Peer() == x;
    if m.leg.Opening? {
      assert base.At(y).received + Said(d.At(x), m.spoken) + [out.message] ==
             base.At(y).received + (Said(d.At(x), m.spoken) + [out.message]);
    } else {
      assert n.At(x).received == l.At(x).received && n.At(y).received == l.At(y).received;
    }
  }

  lemma MoverIsFree(net: Net, d: Dialogue, base: Link, m: Moment, l: Link, at: Places)
    requires Stands(net, d, base, m, l, at)
    ensures Step(net, l, Turn(d, m.Mover(), at.At(m.Mover()))).1 != Blocked
  {
  }

  /** The other side waits for a packet. */
  lemma OtherWaits(net: Net, d: Dialogue, base: Link, m: Moment, l: Link, at: Places)
    requires Stands(net, d, base, m, l, at)
    ensures var y := m.Mover().Peer();
      Turn(d, y, at.At(y)) == Read(y) && Step(net, l, Read(y)) == (l, Blocked)
  {
  }

  /** A turn of `z` whose message fits does not fail, does not cross, and keeps a property of the moves so far. */
  predicate TurnKeeps(net: Net, d: Dialogue, keeps: (nat, Link, Places) -> bool, n: nat, l: Link, at: Places, z: Side) {
    keeps(n, l, at) && Fitting(net, Turn(d, z, at.At(z))) ==>
      var ev := Turn(d, z, at.At(z));
      var (m, out) := Step(net, l, ev);
      !out.Failed? && !Crosses(net, l, ev) && keeps(if out == Blocked then n else n + 1, m, Proceed(at, z, out))
  }

  /** What every turn of the two loops keeps, every run of them keeps. */
  lemma {:induction false} LoopsKeep(net: Net, d: Dialogue, keeps: (nat, Link, Places) -> bool, n: nat, l: Link,
                                     at: Places, evs: seq<Event>)
    requires keeps(n, l, at) && Follows(net, d, l, at, evs) && AllFitting(net, evs)
    requires forall k: nat, m: Link, p: Places, z: Side :: TurnKeeps(net, d, keeps, k, m, p, z)
    ensures NoFailure(Trace(net, l, evs)) && NonCrossing(net, l, evs)
    ensures keeps(n + Moves(Trace(net, l, evs)), Exec(net, l, evs), PlacesAfter(net, l, at, evs))
    decreases |evs|
  {
    if evs != [] {
      var (m, out) := Step(net, l, evs[0]);
      assert TurnKeeps(net, d, keeps, n, l, at, evs[0].side) && Fitting(net, evs[0]);
      LoopsKeep(net, d, keeps, if out == Blocked then n else n + 1, m, Proceed(at, evs[0].side, out), evs[1..]);
      MovesCons(out, Trace(net, m, evs[1..]));
    }
  }

  function Standing(net: Net, d: Dialogue, base: Link, x: Side): (nat, Link, Places) -> bool {
    (n: nat, l: Link, at: Places) => Stands(net, d, base, MomentAt(x, n), l, at)
  }

  /** Whichever side comes next, a move leads to the next moment. */
  lemma LoopStep(net: Net, d: Dialogue, base: Link, x: Side, n: nat, l: Link, at: Places, z: Side)
    ensures TurnKeeps(net, d, Standing(net, d, base, x), n, l, at, z)
  {
    var m := MomentAt(x, n);
    if Stands(net, d, base, m, l, at) && Fitting(net, Turn(d, z, at.At(z))) {
      if z == m.Mover() {
        MoverMoves(net, d, base, m, l, at);
        MomentNext(x, n);
      } else {
        assert z == m.Mover().Peer();
        OtherWaits(net, d, base, m, l, at);
      }
    }
  }

  lemma MovesCons(out: Outcome, others: seq<Outcome>)
    ensures Moves([out] + others) == (if out == Blocked then 0 else 1) + Moves(others)
    ensures !out.Failed? && NoFailure(others) ==> NoFailure([out] + others)
  {
    assert ([out] + others)[1..] == others;
  }

  lemma StandsAtFirst(net: Net, d: Dialogue, l: Link, x: Side)
    requires Resting(net, l)
    ensures Stands(net, d, l, MomentAt(x, 0), l, RoundStart(x, 0))
  {
    assert forall z: Side :: l.At(z).received + [] == l.At(z).received;
  }

  lemma MomentMeans(d: Dialogue, base: Link, x: Side, n: nat, m: Link)
    requires HistoryStands(d, base, MomentAt(x, n), m)
    ensures m.At(x.Peer()).received == base.At(x.Peer()).received + Said(d.At(x), (n + 4) / 8)
    ensures m.At(x).received == base.At(x).received + Said(d.At(x.Peer()), n / 8)
  {
    Octets(n);
    assert x.Peer().Peer() == x;
  }

  lemma RestsAtRoundStart(net: Net, d: Dialogue, m: Moment, l: Link)
    requires m.leg.Sealing? && PortsStand(net, d, m, l.At(m.speaker), l.At(m.speaker.Peer()))
    ensures Resting(net, l)
  {
  }

  lemma PlacesInRound(x: Side, round: nat, step: nat, at: Places, k: nat)
    requires step < 8 && PlacesStand(MomentIn(x, round, step), at)
    ensures at == RoundStart(x, k) <==> step == 0 && round == k
  {
    assert x.Peer().Peer() == x;
  }

  lemma RoundNumbers(x: Side, n: nat, at: Places)
    requires PlacesStand(MomentAt(x, n), at)
    ensures forall k: nat :: at == RoundStart(x, k) <==> n == 8 * k
  {
    Octets(n);
    forall k: nat
      ensures at == RoundStart(x, k) <==> n == 8 * k
    {
      PlacesInRound(x, n / 8, n % 8, at, k);
    }
  }

  lemma LoopsStand(net: Net, d: Dialogue, l: Link, x: Side, evs: seq<Event>)
    requires Resting(net, l) && Follows(net, d, l, RoundStart(x, 0), evs) && AllFitting(net, evs)
    ensures NoFailure(Trace(net, l, evs)) && NonCrossing(net, l, evs)
    ensures Standing(net, d, l, x)(Moves(Trace(net, l, evs)), Exec(net, l, evs),
                                   PlacesAfter(net, l, RoundStart(x, 0), evs))
  {
    StandsAtFirst(net, d, l, x);
    var keeps := Standing(net, d, l, x);
    assert keeps(0, l, RoundStart(x, 0));
    forall k: nat, m: Link, p: Places, z: Side
      ensures TurnKeeps(net, d, keeps, k, m, p, z)
    {
      LoopStep(net, d, l, x, k, m, p, z);
    }
    LoopsKeep(net, d, keeps, 0, l, RoundStart(x, 0), evs);
  }

  lemma MomentShows(net: Net, d: Dialogue, base: Link, x: Side, n: nat, m: Link, at: Places)
    requires Standing(net, d, base, x)(n, m, at)
    ensures m.At(x.Peer()).received == base.At(x.Peer()).received + Said(d.At(x), (n + 4) / 8)
    ensures m.At(x).received == base.At(x).received + Said(d.At(x.Peer()), n / 8)
    ensures forall k: nat :: at == RoundStart(x, k) <==> n == 8 * k
    ensures n % 8 == 0 ==> Resting(net, m)
    ensures exists z: Side :: Step(net, m, Turn(d, z, at.At(z))).1 != Blocked
  {
    MoverIsFree(net, d, base, MomentAt(x, n), m, at);
    MomentMeans(d, base, x, n, m);
    RoundNumbers(x, n, at);
    if n % 8 == 0 {
      RestsAtRoundStart(net, d, MomentAt(x, n), m);
    }
  }

  /**
   Request and response under every schedule of the two loops, for any number of rounds, as
   long as the messages fit. No event fails and no seal crosses; the messages arrive in order, each request before its
   response and each response before the next request; whenever both loops stand at the start
   of a round the link is at rest with equal cells; and one of the two can always go on.
   */
  lemma RoundsSucceed(net: Net, l: Link, x: Side, d: Dialogue, evs: seq<Event>)
    requires Resting(net, l) && Follows(net, d, l, RoundStart(x, 0), evs) && AllFitting(net, evs)
    ensures NoFailure(Trace(net, l, evs)) && NonCrossing(net, l, evs)
    ensures var (m, n) := (Exec(net, l, evs), Moves(Trace(net, l, evs)));
      && m.At(x.Peer()).received == l.At(x.Peer()).received + Said(d.At(x), (n + 4) / 8)
      && m.At(x).received == l.At(x).received + Said(d.At(x.Peer()), n / 8)
    ensures var (m, n) := (Exec(net, l, evs), Moves(Trace(net, l, evs)));
      var at := PlacesAfter(net, l, RoundStart(x, 0), evs);
      && (forall k: nat :: at == RoundStart(x, k) <==> n == 8 * k)
      && (n % 8 == 0 ==> Resting(net, m))
      && exists z: Side :: Step(net, m, Turn(d, z, at.At(z))).1 != Blocked
  {
    LoopsStand(net, d, l, x, evs);
    MomentShows(net, d, l, x, Moves(Trace(net, l, evs)), Exec(net, l, evs),
                PlacesAfter(net, l, RoundStart(x, 0), evs));
  }

  // Both sides start with a send

  /** `x` has sealed a packet that its peer can open, the peer nothing; `x` has left the nonce that they shared. */
  predicate WaitingAt(v: Views, x: Side) {
    var a, b := v.At(x), v.At(x.Peer());
    a.queue == [] && b.queue != [] && b.cell == Some(b.queue[0].under) && a.cell != b.cell
  }

  predicate Waiting(net: Net, l: Link, x: Side) {
    WaitingAt(Look(net, l), x) && l.At(x.Peer()).sending.None?
  }

  lemma WaitingView(net: Net, ev: Event, out: Outcome, v: Views, w: Views, x: Side, used: set<Nonce>)
    requires net.Encrypted() && WaitingAt(v, x) && Known(v, used) && ViewNext(net, ev, out, v, w)
    requires (ev.Seal? ==> ev.next !in used) && !ev.Open?
    ensures if ev.Seal? && ev.side == x.Peer() && out != Blocked then Mute(w) else WaitingAt(w, x)
  {
    var y := x.Peer();
    assert Within(v.At(y).queue, used) && v.At(y).cell.value in used && v.At(y).queue[0].under in used;
    assert y.Peer() == x;
    if ev.Seal? && ev.side == y && out != Blocked {
      assert MuteAt(w.At(x), w.At(y).cell) && MuteAt(w.At(y), w.At(x).cell);
    }
  }

  /** Until the peer seals nothing changes that; when it does, the link is mute. */
  lemma WaitingStep(net: Net, l: Link, x: Side, ev: Event, used: set<Nonce>)
    requires net.Encrypted() && Waiting(net, l, x) && Known(Look(net, l), used)
    requires (ev.Seal? ==> ev.next !in used) && !ev.Open?
    ensures var m := Step(net, l, ev).0;
      && Known(Look(net, m), used + Drawn(ev))
      && (forall z: Side :: m.At(z).received == l.At(z).received)
      && if ev.Seal? && ev.side == x.Peer() then Mute(Look(net, m)) else Waiting(net, m, x)
  {
    var (m, out) := Step(net, l, ev);
    StepView(net, l, ev);
    HistoryStep(net, l, ev);
    KnownView(net, ev, out, Look(net, l), Look(net, m), used);
    WaitingView(net, ev, out, Look(net, l), Look(net, m), x, used);
    forall z: Side
      ensures m.At(z).received == l.At(z).received
    {
      assert z == ev.side || z == ev.side.Peer();
    }
  }

  predicate NoOpen(evs: seq<Event>) {
    forall k :: 0 <= k < |evs| ==> !evs[k].Open?
  }

  lemma {:induction false} WaitingRun(net: Net, l: Link, x: Side, evs: seq<Event>, used: set<Nonce>)
    requires net.Encrypted() && Known(Look(net, l), used) && Fresh(evs, used) && NoOpen(evs)
    requires Waiting(net, l, x)
    ensures var m := Exec(net, l, evs);
      && Known(Look(net, m), used + DrawnBy(evs))
      && (forall z: Side :: m.At(z).received == l.At(z).received)
      && (Waiting(net, m, x) || Mute(Look(net, m)))
    decreases |evs|
  {
    if evs == [] {
      assert used + DrawnBy(evs) == used;
    } else {
      var m, seen := Step(net, l, evs[0]).0, used + Drawn(evs[0]);
      WaitingStep(net, l, x, evs[0], used);
      assert seen + DrawnBy(evs[1..]) == used + DrawnBy(evs);
      if Waiting(net, m, x) {
        WaitingRun(net, m, x, evs[1..], seen);
      } else {
        MuteRun(net, m, evs[1..], seen);
        KnownRun(net, m, evs[1..], seen);
      }
    }
  }

  lemma {:induction false} KnownRun(net: Net, l: Link, evs: seq<Event>, used: set<Nonce>)
    requires net.Encrypted() && Known(Look(net, l), used)
    ensures Known(Look(net, Exec(net, l, evs)), used + DrawnBy(evs))
    decreases |evs|
  {
    if evs == [] {
      assert used + DrawnBy(evs) == used;
    } else {
      var (m, out) := Step(net, l, evs[0]);
      StepView(net, l, evs[0]);
      KnownView(net, evs[0], out, Look(net, l), Look(net, m), used);
      KnownRun(net, m, evs[1..], used + Drawn(evs[0]));
      assert used + Drawn(evs[0]) + DrawnBy(evs[1..]) == used + DrawnBy(evs);
    }
  }

  lemma FirstSealWaits(net: Net, l: Link, x: Side, mine: Draft, used: set<Nonce>)
    requires net.Encrypted() && Resting(net, l) && l.client.cell.value in used
    requires Fitting(net, Seal(x, mine.message, mine.next)) && mine.next !in used
    ensures var m := Step(net, l, Seal(x, mine.message, mine.next)).0;
      && Waiting(net, m, x) && Known(Look(net, m), used + {mine.next})
      && forall z: Side :: m.At(z).received == l.At(z).received
  {
    var ev := Seal(x, mine.message, mine.next);
    var (m, out) := Step(net, l, ev);
    assert Incoming(net, l, Client) == [] && Incoming(net, l, Server) == [];
    StepView(net, l, ev);
    HistoryStep(net, l, ev);
    KnownView(net, ev, out, Look(net, l), Look(net, m), used);
    assert x.Peer().Peer() == x;
    forall z: Side
      ensures m.At(z).received == l.At(z).received
    {
      assert z == x || z == x.Peer();
    }
  }

  /** A run in which both sides start with a seal. */
  function Collision(x: Side, mine: Draft, between: seq<Event>, theirs: Draft, evs: seq<Event>): seq<Event> {
    [Seal(x, mine.message, mine.next)] + between + [Seal(x.Peer(), theirs.message, theirs.next)] + evs
  }

  /** The link after the second seal. */
  lemma CollisionMutes(net: Net, l: Link, x: Side, mine: Draft, between: seq<Event>, theirs: Draft, used: set<Nonce>)
    requires net.Encrypted() && Resting(net, l) && l.client.cell.value in used
    requires Fitting(net, Seal(x, mine.message, mine.next)) && NoOpen(between)
    requires Fresh(Collision(x, mine, between, theirs, []), used)
    ensures var run := Collision(x, mine, between, theirs, []);
      var at := Exec(net, l, run);
      && Mute(Look(net, at)) && Known(Look(net, at), used + DrawnBy(run))
      && forall z: Side :: at.At(z).received == l.At(z).received
  {
    var first, second := Seal(x, mine.message, mine.next), Seal(x.Peer(), theirs.message, theirs.next);
    var run := Collision(x, mine, between, theirs, []);
    assert run == [first] + (between + [second]);
    FreshConcat(between, [second], used + Drawn(first));
    FirstSealWaits(net, l, x, mine, used);
    var m, seen := Step(net, l, first).0, used + Drawn(first);
    WaitingRun(net, m, x, between, seen);
    var n, later := Exec(net, m, between), seen + DrawnBy(between);
    if Waiting(net, n, x) {
      WaitingStep(net, n, x, second, later);
    } else {
      MuteStep(net, n, second, later);
    }
    ExecConcat(net, m, between, [second]);
    assert Exec(net, n, [second]) == Step(net, n, second).0;
    KnownAtStart(net, l, used);
    KnownRun(net, l, run, used);
  }

  lemma KnownAtStart(net: Net, l: Link, used: set<Nonce>)
    requires net.Encrypted() && Resting(net, l) && l.client.cell.value in used
    ensures Known(Look(net, l), used)
  {
    assert Incoming(net, l, Client) == [] && Incoming(net, l, Server) == [];
  }

  /**
   If both sides start with a send and both seal before either opens, whatever else happens
   before, between and afterwards, neither is ever given a message, and every open fails: the
   first of a side whose messages the cipher accepts with an AES failure, the later ones as Broken.
   */
  lemma BothSendFirst(net: Net, l: Link, x: Side, mine: Draft, between: seq<Event>, theirs: Draft, evs: seq<Event>,
                      used: set<Nonce>)
    requires net.Encrypted() && Resting(net, l) && l.client.cell.value in used
    requires Fitting(net, Seal(x, mine.message, mine.next)) && NoOpen(between)
    requires Fresh(Collision(x, mine, between, theirs, evs), used)
    ensures var run := Collision(x, mine, between, theirs, evs);
      var at := Exec(net, l, run);
      && (forall z: Side :: at.At(z).received == l.At(z).received)
      && (forall z: Side :: at.At(z).reading.Some? ==>
            Step(net, at, Open(z)).1 == Failed(if at.At(z).cell.Some? then AES else Broken))
      && (forall z: Side :: NeverOpens(evs, z) && SealableBy(net, run, z) ==> at.At(z).cell.Some?)
  {
    var run, start := Collision(x, mine, between, theirs, evs), Collision(x, mine, between, theirs, []);
    assert run == start + evs;
    FreshConcat(start, evs, used);
    CollisionMutes(net, l, x, mine, between, theirs, used);
    ExecConcat(net, l, start, evs);
    MuteRun(net, Exec(net, l, start), evs, used + DrawnBy(start));
    forall z: Side | NeverOpens(evs, z) && SealableBy(net, run, z)
      ensures Exec(net, l, run).At(z).cell.Some?
    {
      CollisionOpensNothing(x, mine, between, theirs, evs, z);
      KeepsCell(net, l, run, z);
    }
    forall z: Side | Exec(net, l, run).At(z).reading.Some?
      ensures var at := Exec(net, l, run);
        Step(net, at, Open(z)).1 == Failed(if at.At(z).cell.Some? then AES else Broken)
    {
      MuteOpenFails(net, Exec(net, l, run), z);
    }
  }

  lemma CollisionOpensNothing(x: Side, mine: Draft, between: seq<Event>, theirs: Draft, evs: seq<Event>, z: Side)
    requires NoOpen(between) && NeverOpens(evs, z)
    ensures NeverOpens(Collision(x, mine, between, theirs, evs), z)
  {
  }
}
