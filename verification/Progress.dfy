/**
 The handshake on pipes of bounded capacity, byte by byte and under every schedule. The
 client writes its whole message before it reads; the server reads no byte behind its
 verdict, and then writes its answer. So a rejected client may be left with bytes that
 nobody reads.
 */
module Progress {
  import opened Wrappers
  import opened Wire
  import opened LengthCodes
  import opened Framing
  import opened Crypto
  import opened Handshake
  import opened KeyExchange

  /**
   Who says what: the client's message, the server's reader and its answer, the client's
   reader, the capacity of either pipe, and whether a server that turned its client down
   drops its ends of the pipes after answering.
   */
  datatype Script<!T, !U> = Script(
    hello: Bytes,
    serverReads: Parser<T>,
    answers: Result<T, Error> -> Bytes,
    clientReads: Parser<U>,
    capacity: nat,
    drops: bool)
  {
    function Verdict(): Parsed<T> {
      serverReads(hello)
    }

    function Answer(): Bytes {
      answers(Concluded(Verdict()))
    }

    /** What the server leaves unread. */
    function Tail(): Bytes {
      if Verdict().More? then [] else Verdict().rest
    }

    /** The message decides the server, the answer decides the client, and both without a byte too few or too many. */
    ghost predicate Complete() {
      && capacity >= 1
      && Incremental(serverReads) && Incremental(clientReads)
      && !Verdict().More?
      && !clientReads(Answer()).More? && clientReads(Answer()).rest == []
    }
  }

  /** A state: the bytes not yet written, in the two pipes, and taken from them. */
  datatype Talk = Talk(
    unsent: Bytes,
    toServer: Bytes,
    heard: Bytes,
    answered: nat,
    toClient: Bytes,
    got: Bytes,
    dropped: bool,
    broken: bool)

  datatype Move = ClientSends | ServerReads | ServerAnswers | ClientReads | ServerDrops

  function Begin<T, U>(c: Script<T, U>): Talk {
    Talk(c.hello, [], [], 0, [], [], false, false)
  }

  predicate ServerDecided<T, U>(c: Script<T, U>, s: Talk) {
    !c.serverReads(s.heard).More?
  }

  predicate Enabled<T, U>(c: Script<T, U>, s: Talk, m: Move) {
    match m
    case ClientSends => !s.broken && s.unsent != [] && (s.dropped || |s.toServer| < c.capacity)
    case ServerReads => !ServerDecided(c, s) && s.toServer != []
    case ServerAnswers =>
      && ServerDecided(c, s)
      && s.answered < |c.answers(Concluded(c.serverReads(s.heard)))| && |s.toClient| < c.capacity
    case ClientReads => !s.broken && s.unsent == [] && c.clientReads(s.got).More? && (s.toClient != [] || s.dropped)
    case ServerDrops =>
      && c.drops && !s.dropped && c.serverReads(s.heard).Bad?
      && s.answered == |c.answers(Concluded(c.serverReads(s.heard)))|
  }

  /** One byte moves, or the server drops its ends, or the client meets a closed pipe. */
  function Apply<T, U>(c: Script<T, U>, s: Talk, m: Move): Talk
    requires Enabled(c, s, m)
  {
    match m
    case ClientSends =>
      if s.dropped then s.(broken := true)
      else s.(unsent := s.unsent[1..], toServer := s.toServer + [s.unsent[0]])
    case ServerReads => s.(toServer := s.toServer[1..], heard := s.heard + [s.toServer[0]])
    case ServerAnswers =>
      s.(answered := s.answered + 1,
         toClient := s.toClient + [c.answers(Concluded(c.serverReads(s.heard)))[s.answered]])
    case ClientReads =>
      if s.toClient == [] then s.(broken := true)
      else s.(toClient := s.toClient[1..], got := s.got + [s.toClient[0]])
    case ServerDrops => s.(dropped := true)
  }

  /** Any schedule; a move that is not enabled does nothing. */
  function Play<T, U>(c: Script<T, U>, s: Talk, moves: seq<Move>): Talk
    decreases |moves|
  {
    if moves == [] then s
    else Play(c, if Enabled(c, s, moves[0]) then Apply(c, s, moves[0]) else s, moves[1..])
  }

  /** The client's message, with its last `tail` bytes never heard. */
  predicate HelloFlows(hello: Bytes, tail: nat, capacity: nat, s: Talk) {
    s.heard + s.toServer + s.unsent == hello && |s.heard| <= |hello| - tail && |s.toServer| <= capacity
  }

  predicate AnswerFlows(answer: Bytes, capacity: nat, s: Talk) {
    s.answered <= |answer| && s.got + s.toClient == answer[..s.answered] && |s.toClient| <= capacity
  }

  /** Every byte is where it should be, and the server has read nothing behind its verdict. */
  ghost predicate Consistent<T, U>(c: Script<T, U>, s: Talk) {
    && HelloFlows(c.hello, |c.Tail()|, c.capacity, s)
    && AnswerFlows(c.Answer(), c.capacity, s)
    && (!ServerDecided(c, s) ==> s.answered == 0)
    && (s.dropped ==> c.drops && c.Verdict().Bad? && s.answered == |c.Answer()| && ServerDecided(c, s))
    && (s.broken ==> s.dropped && s.unsent != [])
    && (s.unsent != [] ==> s.got == [])
  }

  lemma HeardSoFar(hello: Bytes, tail: nat, capacity: nat, s: Talk)
    requires HelloFlows(hello, tail, capacity, s)
    ensures |s.heard| <= |hello| && hello[..|s.heard|] == s.heard && hello[|s.heard|..] == s.toServer + s.unsent
  {
    assert hello == s.heard + (s.toServer + s.unsent);
  }

  /** Until its verdict the server waits; at its verdict it has heard all but the tail. */
  lemma HeardDecides<T, U>(c: Script<T, U>, s: Talk)
    requires c.Complete() && HelloFlows(c.hello, |c.Tail()|, c.capacity, s)
    ensures ServerDecided(c, s) <==> |s.heard| == |c.hello| - |c.Tail()|
    ensures ServerDecided(c, s) ==>
              && Concluded(c.serverReads(s.heard)) == Concluded(c.Verdict())
              && c.answers(Concluded(c.serverReads(s.heard))) == c.Answer()
              && (c.serverReads(s.heard).Bad? <==> c.Verdict().Bad?)
              && s.toServer + s.unsent == c.Tail()
  {
    var k := |s.heard|;
    HeardSoFar(c.hello, |c.Tail()|, c.capacity, s);
    ExactConsumption(c.serverReads, c.hello, k);
    if k == |c.hello| - |c.Tail()| {
      VerdictAt(c.serverReads, c.hello, k);
    }
  }

  /** The client is done exactly when it has got the whole answer. */
  lemma GotDecides<T, U>(c: Script<T, U>, s: Talk)
    requires c.Complete() && s.got <= c.Answer()
    ensures c.clientReads(s.got).More? <==> |s.got| < |c.Answer()|
  {
    assert c.Answer()[..|s.got|] == s.got;
    ExactConsumption(c.clientReads, c.Answer(), |s.got|);
  }

  lemma BeginConsistent<T, U>(c: Script<T, U>)
    requires c.Complete()
    ensures Consistent(c, Begin(c))
  {
    var s := Begin(c);
    assert s.heard + s.toServer + s.unsent == c.hello;
    assert !c.Verdict().More? && |c.Tail()| <= |c.hello|;
  }

  lemma HelloGoesOn(hello: Bytes, tail: nat, capacity: nat, s: Talk)
    requires HelloFlows(hello, tail, capacity, s) && s.unsent != [] && |s.toServer| < capacity
    ensures HelloFlows(hello, tail, capacity, s.(unsent := s.unsent[1..], toServer := s.toServer + [s.unsent[0]]))
  {
    Shift(s.heard + s.toServer, s.unsent);
    assert s.heard + (s.toServer + [s.unsent[0]]) == s.heard + s.toServer + [s.unsent[0]];
  }

  lemma ClientSendsKeeps<T, U>(c: Script<T, U>, s: Talk)
    requires c.Complete() && Consistent(c, s) && Enabled(c, s, ClientSends)
    ensures Consistent(c, Apply(c, s, ClientSends))
  {
    if !s.dropped {
      HelloGoesOn(c.hello, |c.Tail()|, c.capacity, s);
    }
  }

  lemma ServerReadsKeeps<T, U>(c: Script<T, U>, s: Talk)
    requires c.Complete() && Consistent(c, s) && Enabled(c, s, ServerReads)
    ensures Consistent(c, Apply(c, s, ServerReads))
  {
    HeardDecides(c, s);
    var n := Apply(c, s, ServerReads);
    Shift(s.heard, s.toServer);
    assert n.heard + n.toServer == s.heard + s.toServer;
  }

  lemma AnswerGoesOn(answer: Bytes, capacity: nat, s: Talk)
    requires AnswerFlows(answer, capacity, s) && s.answered < |answer| && |s.toClient| < capacity
    ensures AnswerFlows(answer, capacity, s.(answered := s.answered + 1, toClient := s.toClient + [answer[s.answered]]))
  {
    assert answer[..s.answered + 1] == answer[..s.answered] + [answer[s.answered]];
    assert s.got + (s.toClient + [answer[s.answered]]) == s.got + s.toClient + [answer[s.answered]];
  }

  lemma ServerAnswersKeeps<T, U>(c: Script<T, U>, s: Talk)
    requires c.Complete() && Consistent(c, s) && Enabled(c, s, ServerAnswers)
    ensures Consistent(c, Apply(c, s, ServerAnswers))
  {
    HeardDecides(c, s);
    AnswerGoesOn(c.Answer(), c.capacity, s);
  }

  /** A server drops its ends with the whole answer in the pipe, so a client that still reads finds bytes there. */
  lemma NothingMissing<T, U>(c: Script<T, U>, s: Talk)
    requires c.Complete() && AnswerFlows(c.Answer(), c.capacity, s) && c.clientReads(s.got).More?
    requires s.answered == |c.Answer()|
    ensures s.toClient != []
  {
    AnswerEnds(c.Answer(), c.capacity, s);
    GotDecides(c, s);
  }

  /** What has been got of an answer that was written and read as far as the pipe allows. */
  lemma AnswerEnds(answer: Bytes, capacity: nat, s: Talk)
    requires AnswerFlows(answer, capacity, s) && capacity >= 1
    ensures s.got <= answer
    ensures s.toClient == [] && s.answered == |answer| ==> s.got == answer
  {
    assert s.got == answer[..s.answered][..|s.got|];
    assert answer[..|answer|] == answer;
  }

  lemma ClientReadsKeeps<T, U>(c: Script<T, U>, s: Talk)
    requires c.Complete() && Consistent(c, s) && Enabled(c, s, ClientReads)
    ensures Consistent(c, Apply(c, s, ClientReads))
  {
    if s.toClient == [] {
      NothingMissing(c, s);
      assert false;
    }
    var n := Apply(c, s, ClientReads);
    Shift(s.got, s.toClient);
    assert n.got + n.toClient == s.got + s.toClient;
  }

  lemma ServerDropsKeeps<T, U>(c: Script<T, U>, s: Talk)
    requires c.Complete() && Consistent(c, s) && Enabled(c, s, ServerDrops)
    ensures Consistent(c, Apply(c, s, ServerDrops))
  {
    HeardDecides(c, s);
  }

  lemma MoveKeeps<T, U>(c: Script<T, U>, s: Talk, m: Move)
    requires c.Complete() && Consistent(c, s) && Enabled(c, s, m)
    ensures Consistent(c, Apply(c, s, m))
  {
    match m
    case ClientSends => ClientSendsKeeps(c, s);
    case ServerReads => ServerReadsKeeps(c, s);
    case ServerAnswers => ServerAnswersKeeps(c, s);
    case ClientReads => ClientReadsKeeps(c, s);
    case ServerDrops => ServerDropsKeeps(c, s);
  }

  lemma Shift<A>(a: seq<A>, b: seq<A>)
    requires b != []
    ensures a + [b[0]] + b[1..] == a + b
  {
  }

  lemma {:induction false} PlayKeeps<T, U>(c: Script<T, U>, s: Talk, moves: seq<Move>)
    requires c.Complete() && Consistent(c, s)
    ensures Consistent(c, Play(c, s, moves))
    decreases |moves|
  {
    if moves != [] {
      if Enabled(c, s, moves[0]) {
        MoveKeeps(c, s, moves[0]);
        PlayKeeps(c, Apply(c, s, moves[0]), moves[1..]);
      } else {
        PlayKeeps(c, s, moves[1..]);
      }
    }
  }

  /** Bytes unwritten count twice, bytes in a pipe once. */
  ghost function Work<T, U>(c: Script<T, U>, s: Talk): int {
    2 * |s.unsent| + |s.toServer| + 2 * (|c.Answer()| - s.answered) + |s.toClient| +
    (if s.dropped then 0 else 1) + (if s.broken then 0 else 1)
  }

  lemma WorkIsPositive<T, U>(c: Script<T, U>, s: Talk)
    requires AnswerFlows(c.Answer(), c.capacity, s)
    ensures Work(c, s) >= 0
  {
  }

  lemma MoveCosts<T, U>(c: Script<T, U>, s: Talk, m: Move)
    requires Enabled(c, s, m)
    ensures Work(c, Apply(c, s, m)) < Work(c, s)
  {
  }

  /** Every enabled move does some of the work, so no schedule goes on for ever. */
  lemma MoveWorks<T, U>(c: Script<T, U>, s: Talk, m: Move)
    requires c.Complete() && Consistent(c, s) && Enabled(c, s, m)
    ensures 0 <= Work(c, Apply(c, s, m)) < Work(c, s)
  {
    MoveKeeps(c, s, m);
    WorkIsPositive(c, Apply(c, s, m));
    MoveCosts(c, s, m);
  }

  predicate Settled<T, U>(c: Script<T, U>, s: Talk) {
    forall m: Move :: !Enabled(c, s, m)
  }

  /** How many moves of a schedule are enabled when their turn comes. */
  function Made<T, U>(c: Script<T, U>, s: Talk, moves: seq<Move>): nat
    decreases |moves|
  {
    if moves == [] then 0
    else if Enabled(c, s, moves[0]) then 1 + Made(c, Apply(c, s, moves[0]), moves[1..])
    else Made(c, s, moves[1..])
  }

  lemma {:induction false} WorkBounds<T, U>(c: Script<T, U>, s: Talk, moves: seq<Move>)
    requires c.Complete() && Consistent(c, s)
    ensures 0 <= Made(c, s, moves) + Work(c, Play(c, s, moves)) <= Work(c, s)
    decreases |moves|
  {
    if moves != [] {
      if Enabled(c, s, moves[0]) {
        MoveWorks(c, s, moves[0]);
        MoveKeeps(c, s, moves[0]);
        WorkBounds(c, Apply(c, s, moves[0]), moves[1..]);
      } else {
        WorkBounds(c, s, moves[1..]);
      }
    }
  }

  lemma {:induction false} Settles<T, U>(c: Script<T, U>, s: Talk) returns (moves: seq<Move>)
    requires c.Complete() && Consistent(c, s)
    ensures Settled(c, Play(c, s, moves))
    decreases Work(c, s)
  {
    if Settled(c, s) {
      moves := [];
    } else {
      var m :| Enabled(c, s, m);
      MoveWorks(c, s, m);
      MoveKeeps(c, s, m);
      var others := Settles(c, Apply(c, s, m));
      moves := [m] + others;
      assert moves[1..] == others;
    }
  }

  lemma {:induction false} PlayConcat<T, U>(c: Script<T, U>, s: Talk, a: seq<Move>, b: seq<Move>)
    ensures Play(c, s, a + b) == Play(c, Play(c, s, a), b)
    decreases |a|
  {
    if a == [] {
      assert a + b == b;
    } else {
      assert (a + b)[1..] == a[1..] + b;
      PlayConcat(c, if Enabled(c, s, a[0]) then Apply(c, s, a[0]) else s, a[1..], b);
    }
  }

  /**
   Every schedule settles: no schedule makes more moves than there are bytes to write and to
   read and ends to close, and every one goes on to a state in which nothing can move.
   */
  lemma EveryScheduleSettles<T, U>(c: Script<T, U>, moves: seq<Move>) returns (more: seq<Move>)
    requires c.Complete()
    ensures Made(c, Begin(c), moves) <= 2 * |c.hello| + 2 * |c.Answer()| + 2
    ensures Settled(c, Play(c, Begin(c), moves + more))
  {
    BeginConsistent(c);
    WorkBounds(c, Begin(c), moves);
    PlayKeeps(c, Begin(c), moves);
    WorkIsPositive(c, Play(c, Begin(c), moves));
    more := Settles(c, Play(c, Begin(c), moves));
    PlayConcat(c, Begin(c), moves, more);
  }

  /** The client has written everything and has read the whole answer. */
  predicate ClientFinished<T, U>(c: Script<T, U>, s: Talk) {
    s.unsent == [] && !c.clientReads(s.got).More?
  }

  /** A message of which all that was written has been heard, or more than the tail is still to come. */
  lemma HelloEnds(hello: Bytes, tail: nat, capacity: nat, s: Talk)
    requires HelloFlows(hello, tail, capacity, s) && capacity >= 1
    requires s.unsent == [] || |s.toServer| == capacity
    ensures |s.heard| < |hello| - tail ==> s.toServer != []
  {
    assert |s.heard + s.toServer + s.unsent| == |hello|;
  }

  /** When nothing can move any more the server has decided, and a client that has written everything has the answer. */
  lemma SettledServer<T, U>(c: Script<T, U>, s: Talk)
    requires c.Complete() && Consistent(c, s) && Settled(c, s)
    ensures ServerDecided(c, s) && s.toServer + s.unsent == c.Tail()
    ensures s.unsent == [] && !s.broken ==> s.got == c.Answer()
  {
    HeardDecides(c, s);
    if !ServerDecided(c, s) {
      assert !Enabled(c, s, ClientSends) && !Enabled(c, s, ServerReads);
      HelloEnds(c.hello, |c.Tail()|, c.capacity, s);
      assert false;
    }
    if s.unsent == [] && !s.broken {
      SettledClient(c, s);
    }
  }

  lemma SettledClient<T, U>(c: Script<T, U>, s: Talk)
    requires c.Complete() && AnswerFlows(c.Answer(), c.capacity, s) && Settled(c, s) && ServerDecided(c, s)
    requires c.answers(Concluded(c.serverReads(s.heard))) == c.Answer()
    requires s.unsent == [] && !s.broken
    ensures s.got == c.Answer()
  {
    var answer := c.Answer();
    AnswerEnds(answer, c.capacity, s);
    GotDecides(c, s);
    assert !Enabled(c, s, ServerAnswers) && !Enabled(c, s, ClientReads);
    assert |s.got + s.toClient| == s.answered;
  }

  /**
   Where every schedule ends while the server keeps its ends, as it does after accepting: the
   client finishes iff the bytes the server leaves unread fit into the pipe, and is otherwise
   stuck in its own write.
   */
  lemma FinishesIffTailFits<T, U>(c: Script<T, U>, moves: seq<Move>)
    requires c.Complete() && (c.drops ==> c.Verdict().Done?)
    requires Settled(c, Play(c, Begin(c), moves))
    ensures var s := Play(c, Begin(c), moves);
      && (ClientFinished(c, s) <==> |c.Tail()| <= c.capacity)
      && (ClientFinished(c, s) ==> s.got == c.Answer())
      && (!ClientFinished(c, s) ==> s.unsent != [])
  {
    var s := Play(c, Begin(c), moves);
    BeginConsistent(c);
    PlayKeeps(c, Begin(c), moves);
    SettledServer(c, s);
    assert !Enabled(c, s, ClientSends);
    assert |s.toServer| + |s.unsent| == |c.Tail()|;
  }

  lemma AnswerLengths(answer: Bytes, capacity: nat, s: Talk)
    requires AnswerFlows(answer, capacity, s)
    ensures |s.got| + |s.toClient| == s.answered
  {
    assert |s.got + s.toClient| == s.answered;
  }

  /** A server that has dropped its ends got its whole answer into the pipe, or the client had written everything. */
  lemma SettledAfterDrop<T, U>(c: Script<T, U>, s: Talk)
    requires c.Complete() && Consistent(c, s) && Settled(c, s) && s.dropped
    ensures if s.unsent != [] then s.broken else ClientFinished(c, s) && s.got == c.Answer()
    ensures |c.Tail()| <= c.capacity || |c.Answer()| <= c.capacity
  {
    SettledServer(c, s);
    GotDecides(c, s);
    assert !Enabled(c, s, ClientSends);
    assert |s.toServer + s.unsent| == |c.Tail()|;
    AnswerLengths(c.Answer(), c.capacity, s);
  }

  lemma ServerStuck<T, U>(c: Script<T, U>, s: Talk)
    requires c.Complete() && Consistent(c, s) && Settled(c, s) && ServerDecided(c, s)
    requires c.drops && c.Verdict().Bad? && !s.dropped
    ensures !s.broken && s.answered < |c.Answer()| && |s.toClient| == c.capacity
  {
    HeardDecides(c, s);
    assert !Enabled(c, s, ServerDrops) && !Enabled(c, s, ServerAnswers);
  }

  /** One that could not drop them is stuck in its answer, and the client in its own write. */
  lemma SettledBeforeDrop<T, U>(c: Script<T, U>, s: Talk)
    requires c.Complete() && Consistent(c, s) && Settled(c, s)
    requires c.drops && c.Verdict().Bad? && !s.dropped
    ensures |c.Tail()| > c.capacity && |c.Answer()| > c.capacity
    ensures !s.broken && s.unsent != [] && s.answered < |c.Answer()|
  {
    SettledServer(c, s);
    ServerStuck(c, s);
    AnswerLengths(c.Answer(), c.capacity, s);
    assert s.unsent != [];
    assert !Enabled(c, s, ClientSends);
    assert |s.toServer + s.unsent| == |c.Tail()|;
  }

  /**
   If the server drops its ends once a rejection is written, the client comes free, with the
   reason or with an I/O error, iff the unread bytes or the answer fit into a pipe. If neither
   fits, each side waits for the other to read, and the server does not get as far as to drop. A
   client that has written all of its message has the whole reason; only one that was still
   writing when the server dropped is left with an I/O error.
   */
  lemma DroppingFreesClient<T, U>(c: Script<T, U>, moves: seq<Move>)
    requires c.Complete() && c.drops && c.Verdict().Bad?
    requires Settled(c, Play(c, Begin(c), moves))
    ensures var s := Play(c, Begin(c), moves);
      && (s.broken || ClientFinished(c, s) <==> |c.Tail()| <= c.capacity || |c.Answer()| <= c.capacity)
      && (s.broken <==> s.dropped && s.unsent != [])
      && (s.unsent == [] ==> ClientFinished(c, s) && s.got == c.Answer())
      && (!s.broken && !ClientFinished(c, s) ==> !s.dropped && s.unsent != [] && s.answered < |c.Answer()|)
  {
    var s := Play(c, Begin(c), moves);
    BeginConsistent(c);
    PlayKeeps(c, Begin(c), moves);
    if s.dropped {
      SettledAfterDrop(c, s);
    } else {
      SettledBeforeDrop(c, s);
    }
  }

  /** In no schedule does a client that has written everything meet an I/O error. */
  lemma BrokenInItsWrite<T, U>(c: Script<T, U>, moves: seq<Move>)
    requires c.Complete()
    ensures var s := Play(c, Begin(c), moves);
      s.broken ==> s.dropped && s.unsent != []
  {
    BeginConsistent(c);
    PlayKeeps(c, Begin(c), moves);
  }

  /** If the server leaves nothing unread, every schedule settles with the client in possession of the reason. */
  lemma NoTailNoLoss<T, U>(c: Script<T, U>, moves: seq<Move>)
    requires c.Complete() && c.drops && c.Verdict().Bad? && c.Tail() == []
    requires Settled(c, Play(c, Begin(c), moves))
    ensures var s := Play(c, Begin(c), moves);
      ClientFinished(c, s) && !s.broken && s.got == c.Answer()
  {
    var s := Play(c, Begin(c), moves);
    BeginConsistent(c);
    PlayKeeps(c, Begin(c), moves);
    SettledServer(c, s);
    assert |s.toServer + s.unsent| == 0;
    DroppingFreesClient(c, moves);
  }

  /** A script is complete when the two readers decide on the two messages. */
  lemma Completed<T, U>(c: Script<T, U>, server: Result<T, Error>, tail: Bytes, client: Result<U, Error>)
    requires c.capacity >= 1 && Incremental(c.serverReads) && Incremental(c.clientReads)
    requires c.serverReads(c.hello) == Finish(server, tail)
    requires c.clientReads(c.answers(server)) == Finish(client, [])
    ensures c.Complete() && c.Tail() == tail && c.Answer() == c.answers(server)
    ensures !c.Verdict().More? && (c.Verdict().Done? <==> server.Ok?)
  {
    assert Concluded(c.Verdict()) == server;
  }

  // The handshakes of the protocols

  function SharedScript(code: LengthCode, h: Hello, p: Policy, capacity: nat, drops: bool): Script<Versions, ()> {
    Script(Head(code, h), HeadParser(code, p), last => Reply(code, p, last), ReplyParser(code), capacity, drops)
  }

  lemma SharedComplete(code: LengthCode, h: Hello, p: Policy, capacity: nat, drops: bool)
    requires code.Lawful() && Sized(h, p) && capacity >= 1
    ensures var c := SharedScript(code, h, p, capacity, drops);
      && c.Complete() && c.Tail() == Unread(code, h, p)
      && (c.Verdict().Done? <==> Accepted(h, p)) && !c.Verdict().More?
      && c.Answer() == Reply(code, p, Verdict(h, p))
  {
    HeadIncremental(code, p);
    ReplyIncremental(code);
    SharedVerdicts(code, h, p);
    Completed(SharedScript(code, h, p, capacity, drops), Verdict(h, p), Unread(code, h, p), Counterpart(h, p));
  }

  lemma SharedVerdicts(code: LengthCode, h: Hello, p: Policy)
    requires code.Lawful() && Sized(h, p)
    ensures HeadParser(code, p)(Head(code, h)) == Finish(Verdict(h, p), Unread(code, h, p))
    ensures ReplyParser(code)(Reply(code, p, Verdict(h, p))) == Finish(Counterpart(h, p), [])
  {
    assert Head(code, h) + [] == Head(code, h) && Unread(code, h, p) + [] == Unread(code, h, p);
    ServerReadsHead(code, h, p, []);
    var answer := Reply(code, p, Verdict(h, p));
    assert answer + [] == answer;
    ClientReadsReply(code, h, p, Verdict(h, p), []);
  }

  /** Raw and compress: an accepting handshake always finishes; a rejected client does iff its unread tail fits. */
  lemma {:induction false} SharedHandshakeEnds(code: LengthCode, h: Hello, p: Policy, capacity: nat, moves: seq<Move>)
    requires code.Lawful() && Sized(h, p) && capacity >= 1
    ensures var c := SharedScript(code, h, p, capacity, false);
      var s := Play(c, Begin(c), moves);
      Settled(c, s) ==>
        && (ClientFinished(c, s) <==> Accepted(h, p) || |Unread(code, h, p)| <= capacity)
        && (ClientFinished(c, s) ==> Concluded(ReplyParser(code)(s.got)) == Counterpart(h, p))
  {
    var c := SharedScript(code, h, p, capacity, false);
    SharedComplete(code, h, p, capacity, false);
    SharedVerdicts(code, h, p);
    if Settled(c, Play(c, Begin(c), moves)) {
      FinishesIffTailFits(c, moves);
    }
  }

  /**
   Raw and compress, with a server that drops its ends after rejecting: the client comes free, with
   the reason or with an I/O error, iff its unread strings or the answer fit into a pipe. It has the
   reason iff it could write all of its head, and always if only its version was turned down.
   */
  lemma {:induction false} SharedDropEnds(code: LengthCode, h: Hello, p: Policy, capacity: nat, moves: seq<Move>)
    requires code.Lawful() && Sized(h, p) && capacity >= 1 && !Accepted(h, p)
    ensures var c := SharedScript(code, h, p, capacity, true);
      var s := Play(c, Begin(c), moves);
      Settled(c, s) ==>
        && (s.broken || ClientFinished(c, s) <==>
            |Unread(code, h, p)| <= capacity || |Reply(code, p, Verdict(h, p))| <= capacity)
        && (s.broken <==> s.dropped && s.unsent != [])
        && (s.unsent == [] ==> ClientFinished(c, s) && Concluded(ReplyParser(code)(s.got)) == Counterpart(h, p))
        && (Unread(code, h, p) == [] ==> s.unsent == [])
  {
    var c := SharedScript(code, h, p, capacity, true);
    SharedComplete(code, h, p, capacity, true);
    SharedVerdicts(code, h, p);
    if Settled(c, Play(c, Begin(c), moves)) {
      DroppingFreesClient(c, moves);
      if Unread(code, h, p) == [] {
        NoTailNoLoss(c, moves);
      }
    }
  }

  /**
   The failing case: a client of the wrong protocol, on pipes that hold one byte. Every schedule
   ends with the client in its own write and the server in its answer, each waiting for the other
   to read, although the server means to drop its ends.
   */
  lemma {:induction false} RejectedClientDeadlocks(code: LengthCode, h: Hello, p: Policy, moves: seq<Move>)
    returns (more: seq<Move>)
    requires code.Lawful() && Sized(h, p) && h.variant != p.variant
    ensures var c := SharedScript(code, h, p, 1, true);
      var s := Play(c, Begin(c), moves + more);
      && Settled(c, s) && !s.broken && !s.dropped && !ClientFinished(c, s)
      && s.unsent != [] && s.answered < |c.Answer()|
  {
    var c := SharedScript(code, h, p, 1, true);
    SharedComplete(code, h, p, 1, true);
    more := EveryScheduleSettles(c, moves);
    LengthThen(code, |h.identifier|, []);
    LengthThen(code, |h.version|, []);
    DroppingFreesClient(c, moves + more);
  }

  function KeyScript(code: LengthCode, rsa: Rsa, h: Hello, p: Policy, private: Bytes, key: Key, nonce: Nonce,
                     seed: Bytes, capacity: nat, drops: bool): Script<Greeting, Credential> {
    Script(ClientHello(code, rsa, h, private), HelloParser(code, rsa, p),
           last => ServerAnswer(code, rsa, p, last, key, nonce, seed).0,
           AnswerParser(code, rsa, private), capacity, drops)
  }

  lemma KeyComplete(code: LengthCode, rsa: Rsa, h: Hello, p: Policy, private: Bytes, key: Key, nonce: Nonce,
                    seed: Bytes, capacity: nat, drops: bool)
    requires code.Lawful() && rsa.Lawful() && rsa.generated(private) && Sized(h, p) && |key| == 32
    requires capacity >= 1
    ensures rsa.Public(private).Some?
    ensures var c := KeyScript(code, rsa, h, p, private, key, nonce, seed, capacity, drops);
      && c.Complete() && c.Tail() == UnreadHello(code, rsa, h, p, private)
      && (c.Verdict().Done? <==> Accepted(h, p)) && !c.Verdict().More?
      && c.Answer() == ServerAnswer(code, rsa, p, GreetingVerdict(rsa, h, p, private), key, nonce, seed).0
  {
    HelloIncremental(code, rsa, p);
    AnswerIncremental(code, rsa, private);
    KeyVerdicts(code, rsa, h, p, private, key, nonce, seed);
    var c := KeyScript(code, rsa, h, p, private, key, nonce, seed, capacity, drops);
    Completed(c, GreetingVerdict(rsa, h, p, private), UnreadHello(code, rsa, h, p, private),
              Concluded(c.clientReads(c.answers(GreetingVerdict(rsa, h, p, private)))));
  }

  lemma KeyVerdicts(code: LengthCode, rsa: Rsa, h: Hello, p: Policy, private: Bytes, key: Key, nonce: Nonce,
                    seed: Bytes)
    requires code.Lawful() && rsa.Lawful() && rsa.generated(private) && Sized(h, p) && |key| == 32
    ensures rsa.Public(private).Some?
    ensures HelloParser(code, rsa, p)(ClientHello(code, rsa, h, private)) ==
            Finish(GreetingVerdict(rsa, h, p, private), UnreadHello(code, rsa, h, p, private))
    ensures var answer := ServerAnswer(code, rsa, p, GreetingVerdict(rsa, h, p, private), key, nonce, seed).0;
      AnswerParser(code, rsa, private)(answer) ==
      if Accepted(h, p) then Done(Credential(key, nonce), []) else Bad(Counterpart(h, p).error, [])
  {
    var hello, tail := ClientHello(code, rsa, h, private), UnreadHello(code, rsa, h, p, private);
    assert hello + [] == hello && tail + [] == tail;
    ServerReadsHello(code, rsa, h, p, private, []);
    ClientReadsAnswer(code, rsa, h, p, private, key, nonce, seed, []);
    var answer := ServerAnswer(code, rsa, p, GreetingVerdict(rsa, h, p, private), key, nonce, seed).0;
    assert answer + [] == answer;
  }

  /** The encrypting protocols: the tail of a rejected client also holds its public key. */
  lemma {:induction false} KeyHandshakeEnds(code: LengthCode, rsa: Rsa, h: Hello, p: Policy, private: Bytes, key: Key,
                                            nonce: Nonce, seed: Bytes, capacity: nat, moves: seq<Move>)
    requires code.Lawful() && rsa.Lawful() && rsa.generated(private) && Sized(h, p) && |key| == 32
    requires capacity >= 1
    ensures var c := KeyScript(code, rsa, h, p, private, key, nonce, seed, capacity, false);
      var s := Play(c, Begin(c), moves);
      Settled(c, s) ==>
        && (ClientFinished(c, s) <==> Accepted(h, p) || |UnreadHello(code, rsa, h, p, private)| <= capacity)
        && (ClientFinished(c, s) ==>
              Concluded(AnswerParser(code, rsa, private)(s.got)) ==
              if Accepted(h, p) then Ok(Credential(key, nonce)) else Err(Counterpart(h, p).error))
  {
    var c := KeyScript(code, rsa, h, p, private, key, nonce, seed, capacity, false);
    KeyComplete(code, rsa, h, p, private, key, nonce, seed, capacity, false);
    KeyVerdicts(code, rsa, h, p, private, key, nonce, seed);
    if Settled(c, Play(c, Begin(c), moves)) {
      FinishesIffTailFits(c, moves);
    }
  }

  lemma RejectionHasNoKey(code: LengthCode, rsa: Rsa, h: Hello, p: Policy, private: Bytes, key: Key, nonce: Nonce,
                          seed: Bytes)
    requires rsa.Public(private).Some? && !Accepted(h, p)
    ensures ServerAnswer(code, rsa, p, GreetingVerdict(rsa, h, p, private), key, nonce, seed).0 ==
            Reply(code, p, Verdict(h, p))
  {
  }

  /** The same with a server that drops its ends after rejecting. */
  lemma {:induction false} KeyDropEnds(code: LengthCode, rsa: Rsa, h: Hello, p: Policy, private: Bytes, key: Key,
                                       nonce: Nonce, seed: Bytes, capacity: nat, moves: seq<Move>)
    requires code.Lawful() && rsa.Lawful() && rsa.generated(private) && Sized(h, p) && |key| == 32
    requires capacity >= 1 && !Accepted(h, p)
    ensures var c := KeyScript(code, rsa, h, p, private, key, nonce, seed, capacity, true);
      var s := Play(c, Begin(c), moves);
      Settled(c, s) ==>
        && (s.broken || ClientFinished(c, s) <==>
            |UnreadHello(code, rsa, h, p, private)| <= capacity || |Reply(code, p, Verdict(h, p))| <= capacity)
        && (s.broken <==> s.dropped && s.unsent != [])
        && (s.unsent == [] ==>
              && ClientFinished(c, s)
              && Concluded(AnswerParser(code, rsa, private)(s.got)) == Err(Counterpart(h, p).error))
  {
    var c := KeyScript(code, rsa, h, p, private, key, nonce, seed, capacity, true);
    KeyComplete(code, rsa, h, p, private, key, nonce, seed, capacity, true);
    RejectionHasNoKey(code, rsa, h, p, private, key, nonce, seed);
    KeyVerdicts(code, rsa, h, p, private, key, nonce, seed);
    if Settled(c, Play(c, Begin(c), moves)) {
      DroppingFreesClient(c, moves);
    }
  }
}
