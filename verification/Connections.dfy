/** From the handshake to the data phase, and instances of what the theorems are about. */
module Connections {
  import opened Wrappers
  import opened Wire
  import opened LengthCodes
  import opened Framing
  import opened Crypto
  import opened Stacks
  import opened Handshake
  import opened KeyExchange
  import opened NonceLink
  import opened NonceUse
  import opened ByteLink
  import opened ByteRuns
  import opened Fifo

  /** An endpoint that has just come out of its handshake, with what it has already written behind it. */
  function AfterHandshake(c: Credential, written: Bytes): BytePort {
    BytePort(Some(c), None, written, None, [], [])
  }

  /** The client until it has read the answer. */
  const WAITING := BytePort(None, None, [], None, [], [])

  predicate ServersOwn(evs: seq<Event>) {
    forall i :: 0 <= i < |evs| ==> evs[i].side.Server?
  }

  /** The server alone: what it does depends on nothing of the client's, and crosses nothing. */
  lemma ServerAlone(net: Net, b: Endpoints, p: BytePort, ev: Event)
    requires net.code.Lawful() && ev.side.Server? && b.client.pipe == [] && p.pipe == []
    ensures ByteStep(net, b.(client := p), ev) == (ByteStep(net, b, ev).0.(client := p), ByteStep(net, b, ev).1)
    ensures ByteStep(net, b, ev).0.client == b.client
    ensures b.server.reading.None? ==> ByteStep(net, b, ev).0.server.reading.None?
  {
    assert PacketParser(net.code, net.Limit(Server))([]) == More;
  }

  lemma {:induction false} ServerRun(net: Net, b: Endpoints, p: BytePort, evs: seq<Event>)
    requires net.code.Lawful() && ServersOwn(evs) && p.pipe == []
    requires b.client.pipe == [] && b.client.sending.None? && b.server.reading.None?
    ensures ByteExec(net, b.(client := p), evs) == ByteExec(net, b, evs).(client := p)
    ensures ByteTrace(net, b.(client := p), evs) == ByteTrace(net, b, evs)
    ensures ByteExec(net, b, evs).client == b.client && ByteNonCrossing(net, b, evs)
    decreases |evs|
  {
    if evs != [] {
      assert evs[0].side.Server?;
      ServerAlone(net, b, p, evs[0]);
      ServerRun(net, ByteStep(net, b, evs[0]).0, p, evs[1..]);
    }
  }

  lemma {:induction false} ByteConcat(net: Net, b: Endpoints, early: seq<Event>, evs: seq<Event>)
    ensures ByteTrace(net, b, early + evs) == ByteTrace(net, b, early) + ByteTrace(net, ByteExec(net, b, early), evs)
    ensures ByteNonCrossing(net, b, early + evs) <==>
            ByteNonCrossing(net, b, early) && ByteNonCrossing(net, ByteExec(net, b, early), evs)
    decreases |early|
  {
    if early == [] {
      assert early + evs == evs;
    } else {
      assert (early + evs)[1..] == early[1..] + evs;
      ByteConcat(net, ByteStep(net, b, early[0]).0, early[1..], evs);
    }
  }

  /** A server that begins before the client has its cell, seen as a link on which both had theirs from the start. */
  lemma EarlyServer(net: Net, nonce: Nonce, early: seq<Event>, evs: seq<Event>)
    requires Usable(net) && net.Encrypted() && ServersOwn(early)
    requires AllCompatible(net, early + evs) && AllFitting(net, early + evs)
    ensures var ready := Opened(Some(Credential(net.key, nonce)));
      var (before, start) := (ready.(client := WAITING), ByteExec(net, ready, early));
      && ByteExec(net, before, early) == start.(client := WAITING) && start.client == ready.client
      && (ByteNonCrossing(net, start, evs) ==>
            ByteTrace(net, before, early) + ByteTrace(net, start, evs) == FifoTrace(net, EMPTY, early + evs))
  {
    var ready := Opened(Some(Credential(net.key, nonce)));
    ServerRun(net, ready, WAITING, early);
    ByteConcat(net, ready, early, evs);
    if ByteNonCrossing(net, ByteExec(net, ready, early), evs) {
      StacksRefineQueues(net, nonce, early + evs);
    }
  }

  /** What an accepted handshake leaves, with the server's first packets behind its answer. */
  lemma Agreed(net: Net, rsa: Rsa, h: Hello, p: Policy, private: Bytes, nonce: Nonce, seed: Bytes, packets: Bytes)
    requires net.code.Lawful() && rsa.Lawful() && rsa.generated(private) && Sized(h, p)
    requires |net.key| == 32 && Accepted(h, p)
    ensures var heard := HelloParser(net.code, rsa, p)(ClientHello(net.code, rsa, h, private));
      var (bytes, server) := ServerAnswer(net.code, rsa, p, Concluded(heard), net.key, nonce, seed);
      && heard.Done? && heard.rest == [] && server.Ok? && server.value.0 == Credential(net.key, nonce)
      && AnswerParser(net.code, rsa, private)(bytes + packets) == Done(Credential(net.key, nonce), packets)
  {
    var hello := ClientHello(net.code, rsa, h, private);
    assert hello + [] == hello;
    KeyAgreement(net.code, rsa, h, p, private, net.key, nonce, seed, [], packets);
  }

  /**
   An accepted handshake of an encrypting stack opens a link on which every non-crossing run of
   fitting messages is a run of two message queues. The credentials are those that the two sides
   computed from the bytes they read; and the server may have begun to send, in the events
   `early`, before the client has read the answer, so that its packets follow the answer in the
   stream.
   */
  lemma {:induction false} EncryptedConnection(net: Net, rsa: Rsa, h: Hello, p: Policy, private: Bytes,
                                               nonce: Nonce, seed: Bytes, early: seq<Event>, evs: seq<Event>)
    requires Usable(net) && net.Encrypted() && rsa.Lawful() && rsa.generated(private) && Sized(h, p)
    requires |net.key| == 32 && Accepted(h, p)
    requires ServersOwn(early) && AllCompatible(net, early + evs) && AllFitting(net, early + evs)
    ensures var heard := HelloParser(net.code, rsa, p)(ClientHello(net.code, rsa, h, private));
      var (bytes, server) := ServerAnswer(net.code, rsa, p, Concluded(heard), net.key, nonce, seed);
      && heard.Done? && server.Ok?
      && var before := Endpoints(WAITING, AfterHandshake(server.value.0, []));
         var began := ByteExec(net, before, early);
         var client := AnswerParser(net.code, rsa, private)(bytes + began.server.pipe);
         && client.Done?
         && var start := Endpoints(AfterHandshake(client.value, heard.rest), began.server.(pipe := client.rest));
            ByteNonCrossing(net, start, evs) ==>
              ByteTrace(net, before, early) + ByteTrace(net, start, evs) == FifoTrace(net, EMPTY, early + evs)
  {
    var ready := Opened(Some(Credential(net.key, nonce)));
    EarlyServer(net, nonce, early, evs);
    Agreed(net, rsa, h, p, private, nonce, seed, ByteExec(net, ready, early).server.pipe);
    assert ByteExec(net, ready, early) == Endpoints(ready.client, ByteExec(net, ready, early).server);
  }

  /** With equal limits no read of any run of any stack reports TooLarge or a broken frame. */
  lemma {:induction false} EqualLimitsNeverTooLarge(net: Net, cell: Option<Credential>, evs: seq<Event>)
    requires net.code.Lawful() && net.clientLimit == net.serverLimit < USIZE_LIMIT
    ensures forall k :: 0 <= k < |evs| && evs[k].Read? ==> !ByteTrace(net, Opened(cell), evs)[k].Failed?
  {
    WiderReaderNeverTooLarge(net, Client, cell, evs);
    WiderReaderNeverTooLarge(net, Server, cell, evs);
    forall k | 0 <= k < |evs| && evs[k].Read?
      ensures !ByteTrace(net, Opened(cell), evs)[k].Failed?
    {
      assert evs[k] == Read(Client) || evs[k] == Read(Server);
    }
  }

  function ToyNet(encrypt: bool, compress: bool, limit: nat): Net {
    Net(Stack(if encrypt then Some(ToyAead()) else None, if compress then Some(ToyCodec()) else None),
        seq(KEY_SIZE, _ => 0), Varint(), limit, limit)
  }

  /** Each of the four stacks has an instance that meets every law. */
  lemma ToyNetsAreUsable(encrypt: bool, compress: bool, limit: nat)
    requires limit < USIZE_LIMIT
    ensures Usable(ToyNet(encrypt, compress, limit))
  {
    ToyAeadLawful();
    ToyCodecLawful();
    VarintLawful();
  }

  /**
   A nonce that seals twice although no seal crosses: the client's message is too large, so its
   packet is dropped, and the server then seals its own under the same nonce.
   */
  lemma DroppedNonceIsReused(n0: Nonce, n1: Nonce, n2: Nonce)
    requires n0 != n1 && n0 != n2 && n1 != n2
    ensures var net := ToyNet(true, false, 40);
      var evs := [Seal(Client, seq(13, _ => 0), n1), Write(Client), Seal(Server, [], n2)];
      && NonCrossing(net, Start(Some(n0)), evs) && Fresh(evs, {n0})
      && !SingleUse(SealNonces(net, Start(Some(n0)), evs), {})
  {
    var net := ToyNet(true, false, 40);
    var big: Bytes := seq(13, _ => 0);
    var e0, e1, e2 := Seal(Client, big, n1), Write(Client), Seal(Server, [], n2);
    var evs := [e0, e1, e2];
    assert evs[1..] == [e1, e2] && evs[1..][1..] == [e2] && evs[1..][1..][1..] == [];
    var s := Start(Some(n0));
    var a := Step(net, s, e0).0;
    assert |n1 + big| == 25 && Step(net, s, e0).1 == Stepped;
    var b := Step(net, a, e1).0;
    assert b == s.With(Client, s.client.(cell := Some(n1)));
    assert |n2 + []| == 12 && Step(net, b, e2).1 == Stepped;
    assert NonCrossing(net, s, evs) by {
      assert NonCrossing(net, Step(net, b, e2).0, [e2][1..]);
      assert NonCrossing(net, b, [e2]);
      assert NonCrossing(net, a, [e1, e2]);
    }
    assert Fresh(evs, {n0}) by {
      assert Fresh([e2], {n0} + {n1} + {});
      assert Fresh([e1, e2], {n0} + {n1});
    }
    assert UsedBy(net, s, e0) == [n0] && UsedBy(net, a, e1) == [] && UsedBy(net, b, e2) == [n0];
    assert SealNonces(net, b, [e2]) == [n0] + SealNonces(net, Step(net, b, e2).0, [e2][1..]);
    assert SealNonces(net, a, [e1, e2]) == [] + SealNonces(net, b, [e1, e2][1..]);
    assert SealNonces(net, s, evs) == [n0] + SealNonces(net, a, evs[1..]);
    assert SealNonces(net, s, evs) == [n0, n0];
    assert SealNonces(net, s, evs)[1..] == [n0];
  }
}
