/** Request and response over bytes: the two loops on sealed and framed packets, for every stack. */
module ByteDialogues {
  import opened Wrappers
  import opened Wire
  import opened Crypto
  import opened NonceLink
  import opened RequestResponse
  import opened ByteLink
  import opened ByteRuns

  /** Each side's events are those of its loop; who comes next is free. */
  predicate ByteFollows(net: Net, d: Dialogue, b: Endpoints, at: Places, evs: seq<Event>)
    decreases |evs|
  {
    evs == [] ||
    (var (m, out) := ByteStep(net, b, evs[0]);
     var x := evs[0].side;
     evs[0] == Turn(d, x, at.At(x)) && ByteFollows(net, d, m, Proceed(at, x, out), evs[1..]))
  }

  function BytePlacesAfter(net: Net, b: Endpoints, at: Places, evs: seq<Event>): Places
    decreases |evs|
  {
    if evs == [] then at
    else
      var (m, out) := ByteStep(net, b, evs[0]);
      BytePlacesAfter(net, m, Proceed(at, evs[0].side, out), evs[1..])
  }

  lemma {:induction false} FollowsMatches(net: Net, d: Dialogue, l: Link, b: Endpoints, at: Places, evs: seq<Event>)
    requires Usable(net) && Matches(net, l, b) && AllCompatible(net, evs)
    ensures ByteFollows(net, d, b, at, evs) <==> Follows(net, d, l, at, evs)
    ensures BytePlacesAfter(net, b, at, evs) == PlacesAfter(net, l, at, evs)
    decreases |evs|
  {
    if evs != [] {
      assert Compatible(net, evs[0]);
      StepMatches(net, l, b, evs[0]);
      var (m, out) := ByteStep(net, b, evs[0]);
      FollowsMatches(net, d, Step(net, l, evs[0]).0, m, Proceed(at, evs[0].side, out), evs[1..]);
    }
  }

  lemma MatchingPorts(net: Net, l: Link, b: Endpoints, x: Side)
    requires Matches(net, l, b)
    ensures b.At(x).received == l.At(x).received && b.At(x).cell == CredentialOf(net, l.At(x).cell)
    ensures b.At(x).reading.Some? <==> l.At(x).reading.Some?
    ensures Idle(l.At(x)) ==> b.At(x).sending.None? && b.At(x).pipe == [] && b.At(x).reading.None?
  {
    assert PortMatches(net, x, l.At(x), b.At(x));
  }

  /** What is free to go on over nonces is free to go on over bytes. */
  lemma FreeMatches(net: Net, l: Link, b: Endpoints, ev: Event)
    requires Usable(net) && Matches(net, l, b) && Step(net, l, ev).1 != Blocked
    ensures ByteStep(net, b, ev).1 != Blocked
  {
    if ev.Seal? {
      assert PortMatches(net, ev.side, l.At(ev.side), b.At(ev.side));
    } else {
      StepMatches(net, l, b, ev);
    }
  }

  lemma RestingMatches(net: Net, l: Link, b: Endpoints)
    requires Matches(net, l, b) && Resting(net, l)
    ensures ByteQuiet(b) && b.client.cell == b.server.cell && (net.Encrypted() ==> b.client.cell.Some?)
  {
    MatchingPorts(net, l, b, Client);
    MatchingPorts(net, l, b, Server);
    forall x: Side
      ensures b.At(x).sending.None? && b.At(x).pipe == [] && b.At(x).reading.None?
    {
      assert x == Client || x == Server;
    }
  }

  /**
   The two loops over bytes, right after the handshake and under every schedule: no send or receive
   fails, the messages arrive in order, requests and responses in turn, at the start of every round
   the pipes are empty and the cells equal, and one of the two can always go on.
   */
  lemma RoundsSucceedOverBytes(net: Net, nonce: Nonce, x: Side, d: Dialogue, evs: seq<Event>)
    requires Usable(net) && AllCompatible(net, evs) && AllFitting(net, evs)
    requires ByteFollows(net, d, Opened(Some(Credential(net.key, nonce))), RoundStart(x, 0), evs)
    ensures var start := Opened(Some(Credential(net.key, nonce)));
      var (b, outs) := (ByteExec(net, start, evs), ByteTrace(net, start, evs));
      var (n, at) := (Moves(outs), BytePlacesAfter(net, start, RoundStart(x, 0), evs));
      && NoFailure(outs) && ByteNonCrossing(net, start, evs)
      && b.At(x.Peer()).received == Said(d.At(x), (n + 4) / 8)
      && b.At(x).received == Said(d.At(x.Peer()), n / 8)
      && (forall k: nat :: at == RoundStart(x, k) <==> n == 8 * k)
      && (n % 8 == 0 ==> ByteQuiet(b) && b.client.cell == b.server.cell && (net.Encrypted() ==> b.client.cell.Some?))
      && exists z: Side :: ByteStep(net, b, Turn(d, z, at.At(z))).1 != Blocked
  {
    var start, s := Opened(Some(Credential(net.key, nonce))), Start(Some(nonce));
    OpenedMatches(net, nonce);
    FollowsMatches(net, d, s, start, RoundStart(x, 0), evs);
    RunMatches(net, s, start, evs);
    NonCrossingMatches(net, s, start, evs);
    RoundsSucceed(net, s, x, d, evs);
    var l, b := Exec(net, s, evs), ByteExec(net, start, evs);
    MatchingPorts(net, l, b, x);
    MatchingPorts(net, l, b, x.Peer());
    if Moves(ByteTrace(net, start, evs)) % 8 == 0 {
      RestingMatches(net, l, b);
    }
    var at := PlacesAfter(net, s, RoundStart(x, 0), evs);
    var z: Side :| Step(net, l, Turn(d, z, at.At(z))).1 != Blocked;
    FreeMatches(net, l, b, Turn(d, z, at.At(z)));
  }

  /** If both sides seal first, before either opens, no message is ever given, and every open fails. */
  lemma BothSendFirstOverBytes(net: Net, nonce: Nonce, x: Side, mine: Draft, between: seq<Event>, theirs: Draft,
                               evs: seq<Event>)
    requires Usable(net) && net.Encrypted() && AllCompatible(net, Collision(x, mine, between, theirs, evs))
    requires Fitting(net, Seal(x, mine.message, mine.next)) && NoOpen(between)
    requires Fresh(Collision(x, mine, between, theirs, evs), {nonce})
    ensures var b := ByteExec(net, Opened(Some(Credential(net.key, nonce))), Collision(x, mine, between, theirs, evs));
      && b.client.received == [] && b.server.received == []
      && forall z: Side :: b.At(z).reading.Some? ==>
           ByteStep(net, b, Open(z)).1 == Failed(if b.At(z).cell.Some? then AES else Broken)
  {
    var start, s := Opened(Some(Credential(net.key, nonce))), Start(Some(nonce));
    var run := Collision(x, mine, between, theirs, evs);
    OpenedMatches(net, nonce);
    RunMatches(net, s, start, run);
    BothSendFirst(net, s, x, mine, between, theirs, evs, {nonce});
    var l, b := Exec(net, s, run), ByteExec(net, start, run);
    MatchingPorts(net, l, b, Client);
    MatchingPorts(net, l, b, Server);
    forall z: Side | b.At(z).reading.Some?
      ensures ByteStep(net, b, Open(z)).1 == Failed(if b.At(z).cell.Some? then AES else Broken)
    {
      MatchingPorts(net, l, b, z);
      StepMatches(net, l, b, Open(z));
    }
  }
}
