/**
 The handshake of the encrypting protocols: behind the head the client sends its public key,
 and behind the accepting answer the server sends the sealed session key and the first nonce.
 */
module KeyExchange {
  import opened Wrappers
  import opened Wire
  import opened LengthCodes
  import opened Framing
  import opened Crypto
  import opened Handshake

  /** What `server_init` returns: the versions, and the client's public key. */
  datatype Greeting = Greeting(versions: Versions, public: Bytes)

  // The client's first message and its reader

  function ClientHello(code: LengthCode, rsa: Rsa, h: Hello, private: Bytes): Bytes {
    Head(code, h) + Prefixed(code, rsa.modulus(private)) + Prefixed(code, rsa.exponent(private))
  }

  function HelloParser(code: LengthCode, rsa: Rsa, p: Policy): Parser<Greeting> {
    Bind(HeadParser(code, p), AfterHead(code, rsa))
  }

  function AfterHead(code: LengthCode, rsa: Rsa): Versions -> Parser<Greeting> {
    v => Bind(PrefixedParser(code), AfterModulus(code, rsa, v))
  }

  function AfterModulus(code: LengthCode, rsa: Rsa, v: Versions): Bytes -> Parser<Greeting> {
    n => Bind(PrefixedParser(code), AfterExponent(rsa, v, n))
  }

  function AfterExponent(rsa: Rsa, v: Versions, n: Bytes): Bytes -> Parser<Greeting> {
    e => ComposeKey(rsa, v, n, e)
  }

  function ComposeKey(rsa: Rsa, v: Versions, n: Bytes, e: Bytes): Parser<Greeting> {
    var key := rsa.compose(n, e);
    if key.None? then Fail(Error.RSA) else Pure(Greeting(v, key.value))
  }

  // The server's answer and its reader

  /**
   `server_start`: the state, then, if that was an acceptance and RSA encrypts, the sealed
   session key and the raw nonce. `seed` is the randomness of the encryption.
   */
  function ServerAnswer(code: LengthCode, rsa: Rsa, p: Policy, last: Result<Greeting, Error>,
                        key: Key, nonce: Nonce, seed: Bytes): (Bytes, Result<(Credential, Versions), Error>) {
    var state := Reply(code, p, last);
    if last.Err? then (state, Err(last.error))
    else
      var sealed := rsa.encrypt(last.value.public, seed, key);
      if sealed.None? then (state, Err(Error.RSA))
      else (state + Prefixed(code, sealed.value) + nonce, Ok((Credential(key, nonce), last.value.versions)))
  }

  function AnswerParser(code: LengthCode, rsa: Rsa, private: Bytes): Parser<Credential> {
    Bind(ReplyParser(code), AfterReply(code, rsa, private))
  }

  function AfterReply(code: LengthCode, rsa: Rsa, private: Bytes): (()) -> Parser<Credential> {
    u => Bind(PrefixedParser(code), AfterKey(rsa, private))
  }

  function AfterKey(rsa: Rsa, private: Bytes): Bytes -> Parser<Credential> {
    sealed => Bind(NonceParser(), AfterNonce(rsa, private, sealed))
  }

  function AfterNonce(rsa: Rsa, private: Bytes, sealed: Bytes): Nonce -> Parser<Credential> {
    (nonce: Nonce) => Decrypted(rsa, private, sealed, nonce)
  }

  /** An AES key of the wrong length makes the client panic. */
  function Decrypted(rsa: Rsa, private: Bytes, sealed: Bytes, nonce: Nonce): Parser<Credential> {
    var key := rsa.decrypt(private, sealed);
    if key.None? then Fail(Error.RSA)
    else if |key.value| != KEY_SIZE then Fail(Panicked)
    else Pure(Credential(key.value, nonce))
  }

  function NonceParser(): Parser<Nonce> {
    s => if |s| < NONCE_SIZE then More else Done(s[..NONCE_SIZE], s[NONCE_SIZE..])
  }

  // Incrementality

  lemma NonceIncremental()
    ensures Incremental(NonceParser())
  {
    var p := NonceParser();
    forall s, t | !p(s).More?
      ensures p(s + t) == p(s).Extend(t)
    {
      assert (s + t)[..NONCE_SIZE] == s[..NONCE_SIZE];
      assert (s + t)[NONCE_SIZE..] == s[NONCE_SIZE..] + t;
    }
  }

  lemma ExponentIncremental(rsa: Rsa, v: Versions, n: Bytes, e: Bytes)
    ensures Incremental(AfterExponent(rsa, v, n)(e))
  {
    FailIncremental<Greeting>(Error.RSA);
    if rsa.compose(n, e).Some? {
      PureIncremental(Greeting(v, rsa.compose(n, e).value));
    }
  }

  lemma ModulusIncremental(code: LengthCode, rsa: Rsa, v: Versions, n: Bytes)
    requires code.Lawful()
    ensures Incremental(AfterModulus(code, rsa, v)(n))
  {
    forall e: Bytes
      ensures Incremental(AfterExponent(rsa, v, n)(e))
    {
      ExponentIncremental(rsa, v, n, e);
    }
    PrefixedIncremental(code);
    BindIncremental(PrefixedParser(code), AfterExponent(rsa, v, n));
  }

  lemma AfterHeadIncremental(code: LengthCode, rsa: Rsa, v: Versions)
    requires code.Lawful()
    ensures Incremental(AfterHead(code, rsa)(v))
  {
    forall n: Bytes
      ensures Incremental(AfterModulus(code, rsa, v)(n))
    {
      ModulusIncremental(code, rsa, v, n);
    }
    PrefixedIncremental(code);
    BindIncremental(PrefixedParser(code), AfterModulus(code, rsa, v));
  }

  lemma HelloIncremental(code: LengthCode, rsa: Rsa, p: Policy)
    requires code.Lawful()
    ensures Incremental(HelloParser(code, rsa, p))
  {
    forall v: Versions
      ensures Incremental(AfterHead(code, rsa)(v))
    {
      AfterHeadIncremental(code, rsa, v);
    }
    HeadIncremental(code, p);
    BindIncremental(HeadParser(code, p), AfterHead(code, rsa));
  }

  lemma AfterNonceIncremental(rsa: Rsa, private: Bytes, sealed: Bytes, nonce: Nonce)
    ensures Incremental(AfterNonce(rsa, private, sealed)(nonce))
  {
    FailIncremental<Credential>(Error.RSA);
    FailIncremental<Credential>(Panicked);
    if rsa.decrypt(private, sealed).Some? {
      PureIncremental(Credential(rsa.decrypt(private, sealed).value, nonce));
    }
  }

  lemma AfterKeyIncremental(rsa: Rsa, private: Bytes, sealed: Bytes)
    ensures Incremental(AfterKey(rsa, private)(sealed))
  {
    forall nonce: Nonce
      ensures Incremental(AfterNonce(rsa, private, sealed)(nonce))
    {
      AfterNonceIncremental(rsa, private, sealed, nonce);
    }
    NonceIncremental();
    BindIncremental(NonceParser(), AfterNonce(rsa, private, sealed));
  }

  lemma AfterReplyIncremental(code: LengthCode, rsa: Rsa, private: Bytes)
    requires code.Lawful()
    ensures Incremental(AfterReply(code, rsa, private)(()))
  {
    forall sealed: Bytes
      ensures Incremental(AfterKey(rsa, private)(sealed))
    {
      AfterKeyIncremental(rsa, private, sealed);
    }
    PrefixedIncremental(code);
    BindIncremental(PrefixedParser(code), AfterKey(rsa, private));
  }

  lemma AnswerIncremental(code: LengthCode, rsa: Rsa, private: Bytes)
    requires code.Lawful()
    ensures Incremental(AnswerParser(code, rsa, private))
  {
    forall u: ()
      ensures Incremental(AfterReply(code, rsa, private)(u))
    {
      AfterReplyIncremental(code, rsa, private);
    }
    ReplyIncremental(code);
    BindIncremental(ReplyParser(code), AfterReply(code, rsa, private));
  }

  // The exchange

  /** What a reader behind a head or an answer sees when the check before it failed. */
  lemma BindBad<A, B>(p: Parser<A>, k: A -> Parser<B>, s: Bytes, e: Error, rest: Bytes)
    requires p(s) == Bad(e, rest)
    ensures Bind(p, k)(s) == Bad(e, rest)
  {
  }

  lemma ReadsKeyParts(code: LengthCode, rsa: Rsa, v: Versions, n: Bytes, e: Bytes, t: Bytes)
    requires code.Lawful() && |n| < USIZE_LIMIT && |e| < USIZE_LIMIT
    ensures AfterHead(code, rsa)(v)(Prefixed(code, n) + (Prefixed(code, e) + t)) == ComposeKey(rsa, v, n, e)(t)
  {
    var rest := Prefixed(code, e) + t;
    PrefixedRoundTrip(code, n, rest);
    BindDone(PrefixedParser(code), AfterModulus(code, rsa, v), Prefixed(code, n) + rest, n, rest);
    PrefixedRoundTrip(code, e, t);
    BindDone(PrefixedParser(code), AfterExponent(rsa, v, n), rest, e, t);
  }

  lemma ReadsKey(code: LengthCode, rsa: Rsa, v: Versions, private: Bytes, t: Bytes)
    requires code.Lawful() && rsa.Lawful() && rsa.generated(private)
    ensures rsa.Public(private).Some?
    ensures AfterHead(code, rsa)(v)
              (Prefixed(code, rsa.modulus(private)) + (Prefixed(code, rsa.exponent(private)) + t)) ==
            Done(Greeting(v, rsa.Public(private).value), t)
  {
    ReadsKeyParts(code, rsa, v, rsa.modulus(private), rsa.exponent(private), t);
  }

  /** The client's keys, which the server leaves unread when it turns the client down. */
  function UnreadHello(code: LengthCode, rsa: Rsa, h: Hello, p: Policy, private: Bytes): Bytes {
    if Accepted(h, p) then []
    else Unread(code, h, p) + (Prefixed(code, rsa.modulus(private)) + Prefixed(code, rsa.exponent(private)))
  }

  function GreetingVerdict(rsa: Rsa, h: Hello, p: Policy, private: Bytes): Result<Greeting, Error>
    requires rsa.Public(private).Some?
  {
    match Verdict(h, p)
    case Ok(v) => Ok(Greeting(v, rsa.Public(private).value))
    case Err(e) => Err(e)
  }

  lemma ServerReadsHello(code: LengthCode, rsa: Rsa, h: Hello, p: Policy, private: Bytes, t: Bytes)
    requires code.Lawful() && rsa.Lawful() && rsa.generated(private) && Sized(h, p)
    ensures rsa.Public(private).Some?
    ensures HelloParser(code, rsa, p)(ClientHello(code, rsa, h, private) + t) ==
            Finish(GreetingVerdict(rsa, h, p, private), UnreadHello(code, rsa, h, p, private) + t)
  {
    var n, e := Prefixed(code, rsa.modulus(private)), Prefixed(code, rsa.exponent(private));
    HelloSplit(Head(code, h), n, e, t);
    ServerReadsHead(code, h, p, n + (e + t));
    var s := Head(code, h) + (n + (e + t));
    if Accepted(h, p) {
      assert [] + (n + (e + t)) == n + (e + t) && [] + t == t;
      BindDone(HeadParser(code, p), AfterHead(code, rsa), s, Verdict(h, p).value, n + (e + t));
      ReadsKey(code, rsa, Verdict(h, p).value, private, t);
    } else {
      HelloRest(Unread(code, h, p), n, e, t);
      BindBad(HeadParser(code, p), AfterHead(code, rsa), s, Verdict(h, p).error, Unread(code, h, p) + (n + (e + t)));
    }
  }

  lemma HelloSplit(a: Bytes, b: Bytes, c: Bytes, d: Bytes)
    ensures a + b + c + d == a + (b + (c + d))
  {
  }

  lemma HelloRest(a: Bytes, b: Bytes, c: Bytes, d: Bytes)
    ensures a + (b + c) + d == a + (b + (c + d))
  {
  }

  lemma ReadsSealedKey(code: LengthCode, rsa: Rsa, private: Bytes, sealed: Bytes, key: Key, nonce: Nonce, t: Bytes)
    requires code.Lawful() && |sealed| < USIZE_LIMIT
    requires rsa.decrypt(private, sealed) == Some(key) && |key| == KEY_SIZE
    ensures AfterReply(code, rsa, private)(())(Prefixed(code, sealed) + (nonce + t)) == Done(Credential(key, nonce), t)
  {
    PrefixedRoundTrip(code, sealed, nonce + t);
    BindDone(PrefixedParser(code), AfterKey(rsa, private), Prefixed(code, sealed) + (nonce + t), sealed, nonce + t);
    assert (nonce + t)[..NONCE_SIZE] == nonce && (nonce + t)[NONCE_SIZE..] == t;
    BindDone<Nonce, Credential>(NonceParser(), AfterNonce(rsa, private, sealed), nonce + t, nonce, t);
  }

  lemma ClientReadsAnswer(code: LengthCode, rsa: Rsa, h: Hello, p: Policy, private: Bytes,
                          key: Key, nonce: Nonce, seed: Bytes, t: Bytes)
    requires code.Lawful() && rsa.Lawful() && rsa.generated(private) && Sized(h, p) && |key| == KEY_SIZE
    requires rsa.Public(private).Some?
    ensures var (bytes, r) := ServerAnswer(code, rsa, p, GreetingVerdict(rsa, h, p, private), key, nonce, seed);
      && AnswerParser(code, rsa, private)(bytes + t) ==
         (if Accepted(h, p) then Done(Credential(key, nonce), t) else Bad(Counterpart(h, p).error, t))
      && r == if Accepted(h, p) then Ok((Credential(key, nonce), Versions(MAGIC_VERSION, h.version)))
              else Err(Verdict(h, p).error)
  {
    if Accepted(h, p) {
      ClientReadsAcceptance(code, rsa, h, p, private, key, nonce, seed, t);
    } else {
      var last := GreetingVerdict(rsa, h, p, private);
      var state := Reply(code, p, last);
      ClientReadsReply(code, h, p, last, t);
      BindBad(ReplyParser(code), AfterReply(code, rsa, private), state + t, Counterpart(h, p).error, t);
    }
  }

  lemma ClientReadsAcceptance(code: LengthCode, rsa: Rsa, h: Hello, p: Policy, private: Bytes,
                              key: Key, nonce: Nonce, seed: Bytes, t: Bytes)
    requires code.Lawful() && rsa.Lawful() && rsa.generated(private) && Sized(h, p) && |key| == KEY_SIZE
    requires rsa.Public(private).Some? && Accepted(h, p)
    ensures var (bytes, r) := ServerAnswer(code, rsa, p, GreetingVerdict(rsa, h, p, private), key, nonce, seed);
      && AnswerParser(code, rsa, private)(bytes + t) == Done(Credential(key, nonce), t)
      && r == Ok((Credential(key, nonce), Versions(MAGIC_VERSION, h.version)))
  {
    var last := GreetingVerdict(rsa, h, p, private);
    var state := Reply(code, p, last);
    var sealed := rsa.encrypt(last.value.public, seed, key).value;
    var rest := Prefixed(code, sealed) + (nonce + t);
    HelloSplit(state, Prefixed(code, sealed), nonce, t);
    ClientReadsReply(code, h, p, last, rest);
    BindDone(ReplyParser(code), AfterReply(code, rsa, private), state + rest, (), rest);
    ReadsSealedKey(code, rsa, private, sealed, key, nonce, t);
  }

  /** On a rejection the client of an encrypting protocol learns what any client learns. */
  lemma KeyClientLearns(code: LengthCode, rsa: Rsa, p: Policy, last: Result<Greeting, Error>,
                        visible: Bytes, hidden: Bytes)
    requires code.Lawful() && PolicySized(p) && last.Err? && visible + hidden == Reply(code, p, last)
    ensures forall private :: Concluded(AnswerParser(code, rsa, private)(visible)) ==
                              Err(Learnt(p, last.error, hidden == []))
  {
    WhatIsLearnt(code, p, last, visible, hidden);
    forall private
      ensures Concluded(AnswerParser(code, rsa, private)(visible)) == Err(Learnt(p, last.error, hidden == []))
    {
    }
  }

  /** The bytes of the client's greeting and of an accepting answer, in order. */
  lemma KeyLayout(code: LengthCode, rsa: Rsa, h: Hello, p: Policy, private: Bytes, last: Result<Greeting, Error>,
                  key: Key, nonce: Nonce, seed: Bytes)
    ensures var (n, e) := (rsa.modulus(private), rsa.exponent(private));
      ClientHello(code, rsa, h, private) == Head(code, h) + (code.encode(|n|) + n) + (code.encode(|e|) + e)
    ensures last.Ok? && rsa.encrypt(last.value.public, seed, key).Some? ==>
              var sealed := rsa.encrypt(last.value.public, seed, key).value;
              ServerAnswer(code, rsa, p, last, key, nonce, seed).0 ==
              [BoolPairByte((true, true))] + (code.encode(|sealed|) + sealed) + nonce
  {
  }

  /**
   What the client makes of the sealed key behind an acceptance: a key of 32 bytes gives the
   credential, one of any other length a panic, and one that does not decrypt an RSA error.
   */
  lemma ClientOpensKey(code: LengthCode, rsa: Rsa, private: Bytes, sealed: Bytes, nonce: Nonce, t: Bytes)
    requires code.Lawful() && |sealed| < USIZE_LIMIT
    ensures var answer := [BoolPairByte((true, true))] + (Prefixed(code, sealed) + (nonce + t));
      AnswerParser(code, rsa, private)(answer) ==
      match rsa.decrypt(private, sealed) {
        case None => Bad(Error.RSA, t)
        case Some(key) => if |key| == 32 then Done(Credential(key, nonce), t) else Bad(Panicked, t)
      }
  {
    var rest := Prefixed(code, sealed) + (nonce + t);
    ReadsState(code, (true, true), rest);
    BindDone(ReplyParser(code), AfterReply(code, rsa, private), [BoolPairByte((true, true))] + rest, (), rest);
    PrefixedRoundTrip(code, sealed, nonce + t);
    BindDone(PrefixedParser(code), AfterKey(rsa, private), rest, sealed, nonce + t);
    assert (nonce + t)[..NONCE_SIZE] == nonce && (nonce + t)[NONCE_SIZE..] == t;
    BindDone<Nonce, Credential>(NonceParser(), AfterNonce(rsa, private, sealed), nonce + t, nonce, t);
  }

  /** A public key that does not compose is an RSA error of the server, which sends no answer. */
  lemma KeyDoesNotCompose(code: LengthCode, rsa: Rsa, v: Versions, p: Policy, n: Bytes, e: Bytes, t: Bytes,
                          key: Key, nonce: Nonce, seed: Bytes)
    requires code.Lawful() && |n| < USIZE_LIMIT && |e| < USIZE_LIMIT && rsa.compose(n, e).None?
    ensures AfterHead(code, rsa)(v)(Prefixed(code, n) + (Prefixed(code, e) + t)) == Bad(Error.RSA, t)
    ensures ServerAnswer(code, rsa, p, Err(Error.RSA), key, nonce, seed) == ([], Err(Error.RSA))
  {
    ReadsKeyParts(code, rsa, v, n, e, t);
  }

  /**
   A session key that does not encrypt is one too, but behind the acceptance: the client reads on
   and meets the end of the stream.
   */
  lemma KeyDoesNotEncrypt(code: LengthCode, rsa: Rsa, p: Policy, greeting: Greeting, private: Bytes, key: Key,
                          nonce: Nonce, seed: Bytes)
    requires code.Lawful() && rsa.encrypt(greeting.public, seed, key).None?
    ensures var (bytes, r) := ServerAnswer(code, rsa, p, Ok(greeting), key, nonce, seed);
      && bytes == [BoolPairByte((true, true))] && r == Err(Error.RSA)
      && Concluded(AnswerParser(code, rsa, private)(bytes)) == Err(IO(UnexpectedEof))
  {
    var state := [BoolPairByte((true, true))];
    assert state + [] == state;
    ReadsState(code, (true, true), []);
    BindDone(ReplyParser(code), AfterReply(code, rsa, private), state, (), []);
  }

  /**
   The encrypted handshake. Both sides give Ok iff the shared checks pass; then they hold the
   same key and nonce, and each has read exactly the handshake, so the data phase starts at a
   packet boundary with equal cells. Otherwise both report the same failing check.
   */
  lemma KeyAgreement(code: LengthCode, rsa: Rsa, h: Hello, p: Policy, private: Bytes,
                     key: Key, nonce: Nonce, seed: Bytes, afterHello: Bytes, afterAnswer: Bytes)
    requires code.Lawful() && rsa.Lawful() && rsa.generated(private) && Sized(h, p) && |key| == 32
    ensures var heard := HelloParser(code, rsa, p)(ClientHello(code, rsa, h, private) + afterHello);
      var (bytes, server) := ServerAnswer(code, rsa, p, Concluded(heard), key, nonce, seed);
      var client := AnswerParser(code, rsa, private)(bytes + afterAnswer);
      && (server.Ok? <==> Accepted(h, p)) && (client.Done? <==> Accepted(h, p))
      && (Accepted(h, p) ==>
            && server == Ok((Credential(key, nonce), Versions(1, h.version)))
            && client == Done(Credential(key, nonce), afterAnswer)
            && heard.rest == afterHello)
      && (!Accepted(h, p) ==> server == Err(Verdict(h, p).error) && client == Bad(Counterpart(h, p).error, afterAnswer))
  {
    var heard := HelloParser(code, rsa, p)(ClientHello(code, rsa, h, private) + afterHello);
    ServerReadsHello(code, rsa, h, p, private, afterHello);
    HeardGreeting(rsa, h, p, private, heard, UnreadHello(code, rsa, h, p, private) + afterHello);
    ClientReadsAnswer(code, rsa, h, p, private, key, nonce, seed, afterAnswer);
    if Accepted(h, p) {
      assert [] + afterHello == afterHello;
    }
  }

  lemma HeardGreeting(rsa: Rsa, h: Hello, p: Policy, private: Bytes, heard: Parsed<Greeting>, rest: Bytes)
    requires rsa.Public(private).Some? && heard == Finish(GreetingVerdict(rsa, h, p, private), rest)
    ensures Concluded(heard) == GreetingVerdict(rsa, h, p, private)
    ensures heard.Done? <==> Accepted(h, p)
    ensures !heard.More? && heard.rest == rest
  {
  }
}
