/** Whole runs of the link: which interleavings work, and how the others fail. */
module LinkRuns {
  import opened Wrappers
  import opened Wire
  import opened Crypto
  import opened NonceLink
  import opened NonceChain
  import opened NonceDeath
  import opened Fifo

  function DrawnBy(evs: seq<Event>): set<Nonce>
    decreases |evs|
  {
    if evs == [] then {} else Drawn(evs[0]) + DrawnBy(evs[1..])
  }

  lemma {:induction false} FreshConcat(a: seq<Event>, b: seq<Event>, used: set<Nonce>)
    ensures Fresh(a + b, used) <==> Fresh(a, used) && Fresh(b, used + DrawnBy(a))
    decreases |a|
  {
    if a == [] {
      assert a + b == b;
      assert used + {} == used;
    } else {
      assert (a + b)[1..] == a[1..] + b;
      FreshConcat(a[1..], b, used + Drawn(a[0]));
      assert used + Drawn(a[0]) + DrawnBy(a[1..]) == used + DrawnBy(a);
    }
  }

  /** `Start` with this cell is live, the cell's nonce being the only one in use. */
  lemma StartLive(net: Net, nonce: Nonce)
    ensures Live(Look(net, Start(Some(nonce))), {nonce})
  {
  }

  lemma {:induction false} LiveRun(net: Net, l: Link, evs: seq<Event>, used: set<Nonce>)
    requires net.Encrypted() && Live(Look(net, l), used) && AllSafe(net, l, evs) && Fresh(evs, used)
    ensures Live(Look(net, Exec(net, l, evs)), used + DrawnBy(evs))
    decreases |evs|
  {
    if evs == [] {
      assert used + DrawnBy(evs) == used;
    } else {
      LiveStep(net, l, evs[0], used);
      LiveRun(net, Step(net, l, evs[0]).0, evs[1..], used + Drawn(evs[0]));
      assert used + Drawn(evs[0]) + DrawnBy(evs[1..]) == used + DrawnBy(evs);
    }
  }

  lemma LiveStep(net: Net, l: Link, ev: Event, used: set<Nonce>)
    requires net.Encrypted() && Live(Look(net, l), used) && Safe(net, l, ev)
    requires ev.Seal? ==> ev.next !in used
    ensures Live(Look(net, Step(net, l, ev).0), used + Drawn(ev))
  {
    StepView(net, l, ev);
    LookAt(net, l, ev.side);
    LiveView(net, ev, Step(net, l, ev).1, Look(net, l), Look(net, Step(net, l, ev).0), used);
  }

  lemma LookAt(net: Net, l: Link, x: Side)
    ensures Look(net, l).At(x) == View(l.At(x).cell, Incoming(net, l, x))
  {
  }

  /** Dead for ever: whatever happens, each side is given at most what was due to it. */
  lemma {:induction false} DeadRun(net: Net, l: Link, evs: seq<Event>, used: set<Nonce>, x: Side)
    requires net.Encrypted() && Dead(Look(net, l)) && Known(Look(net, l), used) && Fresh(evs, used)
    ensures Exec(net, l, evs).At(x).received <= l.At(x).received + Due(Look(net, l).At(x))
    decreases |evs|
  {
    if evs != [] {
      var m := Step(net, l, evs[0]).0;
      DeadStep(net, l, evs[0], used, x);
      DeadRun(net, m, evs[1..], used + Drawn(evs[0]), x);
      PrefixTransitive(Exec(net, l, evs).At(x).received,
                       m.At(x).received + Due(Look(net, m).At(x)), l.At(x).received + Due(Look(net, l).At(x)));
    }
  }

  lemma PrefixTransitive<T>(a: seq<T>, b: seq<T>, c: seq<T>)
    requires a <= b && b <= c
    ensures a <= c
  {
  }

  lemma DeadStep(net: Net, l: Link, ev: Event, used: set<Nonce>, x: Side)
    requires net.Encrypted() && Dead(Look(net, l)) && Known(Look(net, l), used)
    requires ev.Seal? ==> ev.next !in used
    ensures var m := Step(net, l, ev).0;
      && Dead(Look(net, m)) && Known(Look(net, m), used + Drawn(ev))
      && m.At(x).received + Due(Look(net, m).At(x)) <= l.At(x).received + Due(Look(net, l).At(x))
  {
    var (m, out) := Step(net, l, ev);
    StepView(net, l, ev);
    KnownView(net, ev, out, Look(net, l), Look(net, m), used);
    DeadView(net, ev, out, Look(net, l), Look(net, m), used);
    ReceivedStep(net, l, ev);
    DueShrinks(ev.side, x, out, l, m, Due(Look(net, l).At(x)), Due(Look(net, m).At(x)));
  }

  /** Only the opening side's history of received messages changes, by the message it is given. */
  lemma ReceivedStep(net: Net, l: Link, ev: Event)
    ensures ReceivedAppends(ev.side, Step(net, l, ev).1, l, Step(net, l, ev).0)
  {
    HistoryStep(net, l, ev);
  }

  predicate ReceivedAppends(x: Side, out: Outcome, l: Link, m: Link) {
    && m.At(x).received == l.At(x).received + (if out.Received? then [out.message] else [])
    && m.At(x.Peer()).received == l.At(x.Peer()).received
  }

  lemma DueShrinks(y: Side, x: Side, out: Outcome, l: Link, m: Link, due: seq<Bytes>, left: seq<Bytes>)
    requires ReceivedAppends(y, out, l, m)
    requires if x != y then left == due
             else if out.Received? then due == [out.message] + left
             else left == due || left == []
    ensures m.At(x).received + left <= l.At(x).received + due
  {
    if x == y && out.Received? {
      assert l.At(x).received + due == l.At(x).received + [out.message] + left;
    }
  }

  /**
   The dichotomy of an encrypted link. A run is safe throughout, or it has a first unsafe
   event, and then each side is given at most what was sealed for it before that event.
   */
  lemma {:induction false} FirstUnsafeEvent(net: Net, l: Link, evs: seq<Event>, used: set<Nonce>) returns (k: nat)
    requires net.Encrypted() && Live(Look(net, l), used) && Fresh(evs, used) && !AllSafe(net, l, evs)
    ensures k < |evs| && AllSafe(net, l, evs[..k]) && !Safe(net, Exec(net, l, evs[..k]), evs[k])
    ensures var at := Exec(net, l, evs[..k]);
      forall x: Side :: Exec(net, l, evs).At(x).received <= at.At(x).received + Messages(Incoming(net, at, x))
    decreases |evs|
  {
    if !Safe(net, l, evs[0]) {
      k := 0;
      assert evs[..0] == [];
      UnsafeIsFatal(net, l, evs, used);
    } else {
      LiveStep(net, l, evs[0], used);
      var m := Step(net, l, evs[0]).0;
      var j := FirstUnsafeEvent(net, m, evs[1..], used + Drawn(evs[0]));
      k := j + 1;
      assert evs[..k][1..] == evs[1..][..j];
    }
  }

  lemma UnsafeIsFatal(net: Net, l: Link, evs: seq<Event>, used: set<Nonce>)
    requires net.Encrypted() && Live(Look(net, l), used) && Fresh(evs, used)
    requires evs != [] && !Safe(net, l, evs[0])
    ensures forall x: Side :: Exec(net, l, evs).At(x).received <= l.At(x).received + Messages(Incoming(net, l, x))
  {
    forall x: Side
      ensures Exec(net, l, evs).At(x).received <= l.At(x).received + Messages(Incoming(net, l, x))
    {
      FatalFor(net, l, evs[0], evs[1..], used, x);
    }
  }

  lemma FatalFor(net: Net, l: Link, ev: Event, evs: seq<Event>, used: set<Nonce>, x: Side)
    requires net.Encrypted() && Live(Look(net, l), used) && Fresh(evs, used + Drawn(ev))
    requires !Safe(net, l, ev) && ev.next !in used
    ensures Exec(net, Step(net, l, ev).0, evs).At(x).received <= l.At(x).received + Messages(Incoming(net, l, x))
  {
    var m := Step(net, l, ev).0;
    LookAt(net, l, ev.side);
    StepView(net, l, ev);
    KilledBy(net, l, ev, used, x);
    DeadRun(net, m, evs, used + Drawn(ev), x);
    PrefixTransitive(Exec(net, m, evs).At(x).received, m.At(x).received + Due(Look(net, m).At(x)),
                     l.At(x).received + Messages(Incoming(net, l, x)));
  }

  lemma KilledBy(net: Net, l: Link, ev: Event, used: set<Nonce>, x: Side)
    requires net.Encrypted() && Live(Look(net, l), used)
    requires ev.Seal? && Step(net, l, ev).1 != Blocked && ev.next !in used
    requires !Fitting(net, ev) || Look(net, l).At(ev.side).queue != []
    ensures var m := Step(net, l, ev).0;
      && Dead(Look(net, m)) && Known(Look(net, m), used + Drawn(ev))
      && m.At(x).received == l.At(x).received && Due(Look(net, m).At(x)) <= Messages(Incoming(net, l, x))
  {
    var (m, out) := Step(net, l, ev);
    StepView(net, l, ev);
    LookAt(net, l, x);
    KnownView(net, ev, out, Look(net, l), Look(net, m), used);
    UnsafeKills(net, ev, out, Look(net, l), Look(net, m), used);
    ReceivedStep(net, l, ev);
    assert x == ev.side || x == ev.side.Peer();
  }

  /**
   The nonce-chain invariant as users see it. If every message fits and no seal crosses, no
   event fails, each side has been given a prefix of what the other sent, and all of it once
   the link is quiet, with equal live cells.
   */
  lemma ChainInvariant(net: Net, nonce: Nonce, evs: seq<Event>)
    requires AllFitting(net, evs) && NonCrossing(net, Start(Some(nonce)), evs)
    ensures var l := Exec(net, Start(Some(nonce)), evs);
      && NoFailure(Trace(net, Start(Some(nonce)), evs))
      && (net.Encrypted() ==> Synced(Look(net, l)))
      && (forall x: Side :: l.At(x).received <= l.At(x.Peer()).sent)
      && (Quiet(l) ==> forall x: Side :: l.At(x).received == l.At(x.Peer()).sent)
      && (Quiet(l) && net.Encrypted() ==> l.client.cell == l.server.cell && l.client.cell.Some?)
  {
    ChainRun(net, nonce, evs);
    var l := Exec(net, Start(Some(nonce)), evs);
    ReceivedIsPrefix(net, l, Client);
    ReceivedIsPrefix(net, l, Server);
  }

  lemma ChainRun(net: Net, nonce: Nonce, evs: seq<Event>)
    requires AllFitting(net, evs) && NonCrossing(net, Start(Some(nonce)), evs)
    ensures Healthy(net, Exec(net, Start(Some(nonce)), evs))
    ensures NoFailure(Trace(net, Start(Some(nonce)), evs))
    ensures Trace(net, Start(Some(nonce)), evs) == FifoTrace(net, EMPTY, evs)
  {
    var s := Start(Some(nonce));
    StartHealthy(net, Some(nonce));
    FittingNonCrossingIsSafe(net, s, evs);
    HealthyRun(net, s, evs);
    FittingRunHasNoTooLarge(net, s, evs);
    NoFaultAtAll(net, s, evs);
  }

  lemma NoFaultAtAll(net: Net, l: Link, evs: seq<Event>)
    requires Trace(net, l, evs) == FifoTrace(net, Abstract(net, l), evs)
    requires forall k :: 0 <= k < |evs| && Trace(net, l, evs)[k].Failed? ==> !Trace(net, l, evs)[k].error.TooLarge?
    ensures NoFailure(Trace(net, l, evs))
  {
    var outs := Trace(net, l, evs);
    forall k | 0 <= k < |outs|
      ensures !outs[k].Failed?
    {
      FifoHasNoFault(net, Abstract(net, l), evs, k);
    }
  }

  /** Muted for ever: no receive ever succeeds, in either direction. */
  lemma {:induction false} MuteRun(net: Net, l: Link, evs: seq<Event>, used: set<Nonce>)
    requires net.Encrypted() && Mute(Look(net, l)) && Known(Look(net, l), used) && Fresh(evs, used)
    ensures Mute(Look(net, Exec(net, l, evs)))
    ensures forall x: Side :: Exec(net, l, evs).At(x).received == l.At(x).received
    ensures forall k :: 0 <= k < |evs| ==> !Trace(net, l, evs)[k].Received?
    decreases |evs|
  {
    if evs != [] {
      var (m, out) := Step(net, l, evs[0]);
      MuteStep(net, l, evs[0], used);
      MuteRun(net, m, evs[1..], used + Drawn(evs[0]));
      assert Trace(net, l, evs) == [out] + Trace(net, m, evs[1..]);
    }
  }

  lemma MuteStep(net: Net, l: Link, ev: Event, used: set<Nonce>)
    requires net.Encrypted() && Mute(Look(net, l)) && Known(Look(net, l), used)
    requires ev.Seal? ==> ev.next !in used
    ensures var (m, out) := Step(net, l, ev);
      && Mute(Look(net, m)) && Known(Look(net, m), used + Drawn(ev)) && !out.Received?
      && (forall x: Side :: m.At(x).received == l.At(x).received)
      && forall x: Side :: Look(net, l).At(x).queue != [] && !(ev.Open? && out.Failed?) ==>
           Look(net, m).At(x).queue != []
  {
    var (m, out) := Step(net, l, ev);
    StepView(net, l, ev);
    HistoryStep(net, l, ev);
    KnownView(net, ev, out, Look(net, l), Look(net, m), used);
    MuteView(net, ev, out, Look(net, l), Look(net, m), used);
    forall x: Side
      ensures m.At(x).received == l.At(x).received
    {
      assert x == ev.side || x == ev.side.Peer();
    }
  }

  /** A muted link with a packet on its way does not become quiet without a failure. */
  lemma {:induction false} MuteNeedsFailure(net: Net, l: Link, evs: seq<Event>, used: set<Nonce>, x: Side)
    requires net.Encrypted() && Mute(Look(net, l)) && Known(Look(net, l), used) && Fresh(evs, used)
    requires Look(net, l).At(x).queue != [] && Quiet(Exec(net, l, evs))
    ensures !NoFailure(Trace(net, l, evs))
    decreases |evs|
  {
    if evs == [] {
      QuietQueues(net, l, x);
      assert false;
    } else {
      var (m, out) := Step(net, l, evs[0]);
      MuteStep(net, l, evs[0], used);
      assert Trace(net, l, evs) == [out] + Trace(net, m, evs[1..]);
      if out.Failed? {
        assert Trace(net, l, evs)[0].Failed?;
      } else {
        MuteNeedsFailure(net, m, evs[1..], used + Drawn(evs[0]), x);
        var k :| 0 <= k < |evs[1..]| && Trace(net, m, evs[1..])[k].Failed?;
        assert Trace(net, l, evs)[k + 1].Failed?;
      }
    }
  }

  lemma QuietQueues(net: Net, l: Link, x: Side)
    requires Quiet(l)
    ensures Look(net, l).At(x).queue == []
  {
    assert l.At(x).reading.None? && l.At(x.Peer()).wire == [] && l.At(x.Peer()).sending.None?;
  }

  /** The position of the first crossing, which is reached by a non-crossing run. */
  lemma {:induction false} FirstCrossing(net: Net, l: Link, evs: seq<Event>) returns (k: nat)
    requires !NonCrossing(net, l, evs)
    ensures k < |evs| && NonCrossing(net, l, evs[..k]) && Crosses(net, Exec(net, l, evs[..k]), evs[k])
    decreases |evs|
  {
    if Crosses(net, l, evs[0]) {
      k := 0;
      assert evs[..0] == [];
    } else {
      var j := FirstCrossing(net, Step(net, l, evs[0]).0, evs[1..]);
      k := j + 1;
      assert evs[..k][1..] == evs[1..][..j];
    }
  }

  lemma SplitAt(net: Net, l: Link, evs: seq<Event>, k: nat, used: set<Nonce>)
    requires k < |evs| && Fresh(evs, used)
    ensures Fresh(evs[..k], used) && Fresh(evs[k..], used + DrawnBy(evs[..k]))
    ensures Exec(net, l, evs) == Exec(net, Exec(net, l, evs[..k]), evs[k..])
    ensures Trace(net, l, evs) == Trace(net, l, evs[..k]) + Trace(net, Exec(net, l, evs[..k]), evs[k..])
  {
    assert evs == evs[..k] + evs[k..];
    FreshConcat(evs[..k], evs[k..], used);
    ExecConcat(net, l, evs[..k], evs[k..]);
  }

  /** After a crossing the link is mute, and the side that crossed has a packet on its way. */
  lemma MutedByCrossing(net: Net, l: Link, ev: Event, used: set<Nonce>)
    requires net.Encrypted() && Live(Look(net, l), used)
    requires Crosses(net, l, ev) && ev.next !in used
    ensures var m := Step(net, l, ev).0;
      && Mute(Look(net, m)) && Known(Look(net, m), used + Drawn(ev))
      && (forall x: Side :: m.At(x).received == l.At(x).received)
      && Look(net, m).At(ev.side).queue != []
      && m.At(ev.side.Peer()).cell.Some? && (net.stack.Sealable(ev.next, ev.message) ==> m.At(ev.side).cell.Some?)
  {
    var (m, out) := Step(net, l, ev);
    StepView(net, l, ev);
    HistoryStep(net, l, ev);
    LookAt(net, l, ev.side);
    KnownView(net, ev, out, Look(net, l), Look(net, m), used);
    CrossingMutes(net, ev, out, Look(net, l), Look(net, m), used);
    LookAt(net, m, ev.side);
    LookAt(net, m, ev.side.Peer());
    forall x: Side
      ensures m.At(x).received == l.At(x).received
    {
      assert x == ev.side || x == ev.side.Peer();
    }
  }

  lemma AfterCrossing(net: Net, m: Link, tail: seq<Event>, used: set<Nonce>, x: Side)
    requires net.Encrypted() && Mute(Look(net, m)) && Known(Look(net, m), used) && Fresh(tail, used)
    requires Look(net, m).At(x).queue != []
    ensures forall k :: 0 <= k < |tail| ==> !Trace(net, m, tail)[k].Received?
    ensures forall z: Side :: Exec(net, m, tail).At(z).received == m.At(z).received
    ensures Quiet(Exec(net, m, tail)) ==> !NoFailure(Trace(net, m, tail))
  {
    MuteRun(net, m, tail, used);
    if Quiet(Exec(net, m, tail)) {
      MuteNeedsFailure(net, m, tail, used, x);
    }
  }

  lemma OutcomesShift(out: Outcome, outs: seq<Outcome>)
    ensures !NoFailure(outs) ==> !NoFailure([out] + outs)
    ensures !out.Received? && (forall j :: 0 <= j < |outs| ==> !outs[j].Received?) ==>
              forall j :: 0 <= j < |[out] + outs| ==> !([out] + outs)[j].Received?
  {
    if !NoFailure(outs) {
      var j :| 0 <= j < |outs| && outs[j].Failed?;
      assert ([out] + outs)[1 + j].Failed?;
    }
  }

  /** A run that begins with a crossing. */
  lemma CrossedRun(net: Net, l: Link, evs: seq<Event>, used: set<Nonce>)
    requires net.Encrypted() && Live(Look(net, l), used) && Fresh(evs, used)
    requires evs != [] && Crosses(net, l, evs[0])
    ensures forall j :: 0 <= j < |evs| ==> !Trace(net, l, evs)[j].Received?
    ensures forall x: Side :: Exec(net, l, evs).At(x).received == l.At(x).received
    ensures Quiet(Exec(net, l, evs)) ==> !NoFailure(Trace(net, l, evs))
  {
    var (m, out) := Step(net, l, evs[0]);
    MutedByCrossing(net, l, evs[0], used);
    CellStep(net, l, evs[0]);
    AfterCrossing(net, m, evs[1..], used + Drawn(evs[0]), evs[0].side);
    OutcomesShift(out, Trace(net, m, evs[1..]));
  }

  lemma LiveUntil(net: Net, nonce: Nonce, evs: seq<Event>)
    requires net.Encrypted() && AllFitting(net, evs) && Fresh(evs, {nonce})
    requires NonCrossing(net, Start(Some(nonce)), evs)
    ensures Live(Look(net, Exec(net, Start(Some(nonce)), evs)), {nonce} + DrawnBy(evs))
  {
    StartLive(net, nonce);
    FittingNonCrossingIsSafe(net, Start(Some(nonce)), evs);
    LiveRun(net, Start(Some(nonce)), evs, {nonce});
  }

  lemma OutcomesAfter(before: seq<Outcome>, after: seq<Outcome>)
    ensures !NoFailure(after) ==> !NoFailure(before + after)
    ensures forall j :: |before| <= j < |before + after| ==> (before + after)[j] == after[j - |before|]
  {
    if !NoFailure(after) {
      var j :| 0 <= j < |after| && after[j].Failed?;
      assert (before + after)[|before| + j].Failed?;
    }
  }

  /**
   The first crossing ends both directions: from there on no receive ever succeeds, on either
   side, whatever the two sides do, and whatever the sizes of the messages that they seal.
   */
  lemma {:induction false} CrossingIsFatal(net: Net, nonce: Nonce, evs: seq<Event>, k: nat)
    requires net.Encrypted() && Fresh(evs, {nonce}) && k < |evs|
    requires AllFitting(net, evs[..k]) && NonCrossing(net, Start(Some(nonce)), evs[..k])
    requires Crosses(net, Exec(net, Start(Some(nonce)), evs[..k]), evs[k])
    ensures forall j :: k <= j < |evs| ==> !Trace(net, Start(Some(nonce)), evs)[j].Received?
    ensures forall x: Side :: Exec(net, Start(Some(nonce)), evs).At(x).received ==
                              Exec(net, Start(Some(nonce)), evs[..k]).At(x).received
    ensures Quiet(Exec(net, Start(Some(nonce)), evs)) ==> !NoFailure(Trace(net, Start(Some(nonce)), evs))
  {
    var s := Start(Some(nonce));
    var at := Exec(net, s, evs[..k]);
    SplitAt(net, s, evs, k, {nonce});
    LiveUntil(net, nonce, evs[..k]);
    var tail := evs[k..];
    assert tail[0] == evs[k];
    CrossedRun(net, at, tail, {nonce} + DrawnBy(evs[..k]));
    OutcomesAfter(Trace(net, s, evs[..k]), Trace(net, at, tail));
  }

  lemma CrossingRunFails(net: Net, nonce: Nonce, evs: seq<Event>)
    requires net.Encrypted() && AllFitting(net, evs) && Fresh(evs, {nonce})
    requires Quiet(Exec(net, Start(Some(nonce)), evs)) && !NonCrossing(net, Start(Some(nonce)), evs)
    ensures !NoFailure(Trace(net, Start(Some(nonce)), evs))
  {
    var k := FirstCrossing(net, Start(Some(nonce)), evs);
    assert forall i :: 0 <= i < k ==> evs[..k][i] == evs[i];
    CrossingIsFatal(net, nonce, evs, k);
  }

  /**
   Which interleavings work, exactly. A run of fitting messages in which everything sealed is
   in the end written, read and opened is free of faults iff no seal crosses, and iff its outcomes
   are those of two independent message queues.
   */
  lemma FaultFreeIffNonCrossing(net: Net, nonce: Nonce, evs: seq<Event>)
    requires net.Encrypted() && AllFitting(net, evs) && Fresh(evs, {nonce})
    requires Quiet(Exec(net, Start(Some(nonce)), evs))
    ensures NoFailure(Trace(net, Start(Some(nonce)), evs)) <==> NonCrossing(net, Start(Some(nonce)), evs)
    ensures Trace(net, Start(Some(nonce)), evs) == FifoTrace(net, EMPTY, evs) <==>
            NonCrossing(net, Start(Some(nonce)), evs)
  {
    var s := Start(Some(nonce));
    StartHealthy(net, Some(nonce));
    FittingRunHasNoTooLarge(net, s, evs);
    if NonCrossing(net, s, evs) {
      ChainRun(net, nonce, evs);
    } else {
      CrossingRunFails(net, nonce, evs);
      if Trace(net, s, evs) == FifoTrace(net, EMPTY, evs) {
        NoFaultAtAll(net, s, evs);
        assert false;
      }
    }
  }

  // How the failure shows on each side

  predicate NeverOpens(evs: seq<Event>, x: Side) {
    forall k :: 0 <= k < |evs| ==> evs[k] != Open(x)
  }

  /** The cipher accepts whatever `x` seals. */
  predicate SealableBy(net: Net, evs: seq<Event>, x: Side) {
    forall k :: 0 <= k < |evs| && evs[k].Seal? && evs[k].side == x ==> net.stack.Sealable(evs[k].next, evs[k].message)
  }

  /** Until it opens a packet a side keeps its cell, and goes on sending as if nothing had happened. */
  lemma {:induction false} KeepsCell(net: Net, l: Link, evs: seq<Event>, x: Side)
    requires net.Encrypted() && SealableBy(net, evs, x) && NeverOpens(evs, x) && l.At(x).cell.Some?
    ensures Exec(net, l, evs).At(x).cell.Some?
    decreases |evs|
  {
    if evs != [] {
      assert evs[0] != Open(x);
      assert evs[0].Seal? && evs[0].side == x ==> net.stack.Sealable(evs[0].next, evs[0].message);
      CellStep(net, l, evs[0]);
      KeepsCell(net, Step(net, l, evs[0]).0, evs[1..], x);
    }
  }

  /** In a mute link every open fails, and empties the cell if it was occupied. */
  lemma MuteOpenFails(net: Net, l: Link, x: Side)
    requires net.Encrypted() && Mute(Look(net, l)) && l.At(x).reading.Some?
    ensures var (m, out) := Step(net, l, Open(x));
      m.At(x).cell == None && out == Failed(if l.At(x).cell.Some? then AES else Broken)
  {
    HeadOfQueue(net, l, x);
    assert MuteAt(Look(net, l).At(x), l.At(x.Peer()).cell);
    CellStep(net, l, Open(x));
  }

  /**
   Every open after a crossing fails, on either side, and leaves an empty cell: the next one of
   each side gives an AES failure, unless the cipher has refused one of its own messages, the
   later ones Broken.
   */
  lemma NextOpenFails(net: Net, l: Link, ev: Event, evs: seq<Event>, used: set<Nonce>, x: Side)
    requires net.Encrypted() && Live(Look(net, l), used) && Fresh([ev] + evs, used)
    requires Crosses(net, l, ev)
    ensures var at := Exec(net, l, [ev] + evs);
      && (NeverOpens(evs, x) && SealableBy(net, [ev] + evs, x) ==> at.At(x).cell.Some?)
      && (at.At(x).reading.Some? ==>
            && Step(net, at, Open(x)).1 == Failed(if at.At(x).cell.Some? then AES else Broken)
            && Step(net, at, Open(x)).0.At(x).cell == None)
  {
    assert ([ev] + evs)[0] == ev && ([ev] + evs)[1..] == evs;
    MutedByCrossing(net, l, ev, used);
    var m := Step(net, l, ev).0;
    MuteRun(net, m, evs, used + Drawn(ev));
    var at := Exec(net, m, evs);
    if NeverOpens(evs, x) && SealableBy(net, [ev] + evs, x) {
      assert forall k :: 0 <= k < |evs| ==> evs[k] == ([ev] + evs)[k + 1];
      assert x == ev.side ==> net.stack.Sealable(([ev] + evs)[0].next, ev.message);
      assert x == ev.side || x == ev.side.Peer();
      KeepsCell(net, m, evs, x);
    }
    if at.At(x).reading.Some? {
      MuteOpenFails(net, at, x);
    }
  }

  /** Once empty a cell stays empty: every later seal or open that reaches it reports Broken. */
  lemma {:induction false} EmptyForEver(net: Net, l: Link, evs: seq<Event>, x: Side)
    requires net.Encrypted() && l.At(x).cell.None?
    ensures Exec(net, l, evs).At(x).cell.None?
    ensures forall k :: 0 <= k < |evs| && evs[k].side == x && (evs[k].Seal? || evs[k].Open?) ==>
              Trace(net, l, evs)[k] == Blocked || Trace(net, l, evs)[k] == Failed(Broken)
    decreases |evs|
  {
    if evs != [] {
      CellStep(net, l, evs[0]);
      var (m, out) := Step(net, l, evs[0]);
      EmptyForEver(net, m, evs[1..], x);
      assert Trace(net, l, evs) == [out] + Trace(net, m, evs[1..]);
    }
  }
}
