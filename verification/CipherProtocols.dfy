/** The protocols with encryption: `protocols/encrypt.rs` and `protocols/compress_encrypt.rs`. */
module CipherProtocols {
  import opened Wrappers
  import opened Wire
  import opened Framing
  import opened Crypto
  import opened Handshake
  import opened KeyExchange
  import opened Streams
  import opened StreamIo
  import opened CommonProtocol
  import opened Transport
  import opened PlainProtocols

  // The handshake, which the two protocols share but for their variant

  method ClientInit(w: Writer, cfg: Config, rsa: Rsa, h: Hello, private: Bytes)
    requires w.Valid()
    modifies w
    ensures w.Valid() && w.Produced() == old(w.Produced()) + ClientHello(cfg.code, rsa, h, private)
    ensures if cfg.autoFlush then w.visible == w.Produced()
            else StaysBuffered(w, ClientHello(cfg.code, rsa, h, private))
  {
    WriteHead(w, cfg.code, h);
    assert |w.Produced()| == |old(w.Produced())| + |Head(cfg.code, h)|;
    WritePrefixed(w, cfg.code, rsa.modulus(private));
    WritePrefixed(w, cfg.code, rsa.exponent(private));
    HelloJoined(old(w.Produced()), Head(cfg.code, h), Prefixed(cfg.code, rsa.modulus(private)),
                Prefixed(cfg.code, rsa.exponent(private)));
    FlushIfAuto(w, cfg.autoFlush);
  }

  lemma HelloJoined(z: Bytes, a: Bytes, b: Bytes, c: Bytes)
    ensures z + a + b + c == z + (a + b + c)
  {
  }

  method ServerInit(src: Source, cfg: Config, rsa: Rsa, p: Policy) returns (r: Result<Greeting, Error>)
    requires cfg.code.Lawful()
    modifies src
    ensures Follows(HelloParser(cfg.code, rsa, p), old(src.pending), r, src.pending)
  {
    var v :- ReadHead(src, cfg.code, p);
    BindDone(HeadParser(cfg.code, p), AfterHead(cfg.code, rsa), old(src.pending), v, src.pending);
    r := ReadPublicKey(src, cfg, rsa, v);
  }

  method ReadPublicKey(src: Source, cfg: Config, rsa: Rsa, v: Versions) returns (r: Result<Greeting, Error>)
    requires cfg.code.Lawful()
    modifies src
    ensures Follows(Bind(PrefixedParser(cfg.code), AfterModulus(cfg.code, rsa, v)), old(src.pending), r, src.pending)
  {
    var n :- ReadPrefixed(src, cfg.code);
    BindDone(PrefixedParser(cfg.code), AfterModulus(cfg.code, rsa, v), old(src.pending), n, src.pending);
    r := ReadExponent(src, cfg, rsa, v, n);
  }

  method ReadExponent(src: Source, cfg: Config, rsa: Rsa, v: Versions, n: Bytes) returns (r: Result<Greeting, Error>)
    requires cfg.code.Lawful()
    modifies src
    ensures Follows(Bind(PrefixedParser(cfg.code), AfterExponent(rsa, v, n)), old(src.pending), r, src.pending)
  {
    var e :- ReadPrefixed(src, cfg.code);
    BindDone(PrefixedParser(cfg.code), AfterExponent(rsa, v, n), old(src.pending), e, src.pending);
    var key := rsa.compose(n, e);
    if key.None? {
      return Err(Error.RSA);
    }
    return Ok(Greeting(v, key.value));
  }

  /**
   The key and nonce are drawn, and `seed` used, after the acceptance is written. A rejection is
   not flushed: what becomes visible of it, and what the client makes of that before the end of
   the stream, is as without a key.
   */
  method ServerStart(w: Writer, cfg: Config, rsa: Rsa, p: Policy, last: Result<Greeting, Error>,
                     key: Key, nonce: Nonce, seed: Bytes) returns (r: Result<(Cipher, Versions), Error>)
    requires w.Valid()
    modifies w
    ensures var (bytes, expected) := ServerAnswer(cfg.code, rsa, p, last, key, nonce, seed);
      && w.Valid() && w.Produced() == old(w.Produced()) + bytes
      && (r.Ok? <==> expected.Ok?)
      && (r.Ok? ==> fresh(r.value.0) && r.value.0.cell == Some(expected.value.0) && r.value.1 == expected.value.1)
      && (r.Err? ==> r.error == expected.error)
      && (r.Ok? ==> if cfg.autoFlush then w.visible == w.Produced() else StaysBuffered(w, bytes))
    ensures r.Err? && old(|w.buffer|) + |Reply(cfg.code, p, last)| <= w.capacity && 1 < w.capacity ==>
              w.visible == old(w.visible)
    ensures last.Err? && old(|w.buffer|) + |Reply(cfg.code, p, last)| > w.capacity ==>
              old(w.Produced()) <= w.visible && w.visible != old(w.visible)
    ensures last.Err? && old(w.Produced()) == [] && cfg.code.Lawful() && PolicySized(p) ==>
              var learnt := Learnt(p, last.error, w.buffer == []);
              && (forall private :: Concluded(AnswerParser(cfg.code, rsa, private)(w.visible)) == Err(learnt))
              && (Answered(last.error) ==> ReasonFate(cfg.code, p, last.error, w.capacity, learnt))
  {
    var written := WriteLast(w, cfg.code, p, last);
    assert |w.Produced()| == |old(w.Produced())| + |Reply(cfg.code, p, last)|;
    if last.Err? && old(w.Produced()) == [] && cfg.code.Lawful() && PolicySized(p) {
      KeyClientLearns(cfg.code, rsa, p, last, w.visible, w.buffer);
      if Answered(last.error) {
        FateDecided(cfg.code, p, last.error, w.capacity, w.buffer);
      }
    }
    var greeting :- written;
    var sealed := rsa.encrypt(greeting.public, seed, key);
    if sealed.None? {
      return Err(Error.RSA);
    }
    WritePrefixed(w, cfg.code, sealed.value);
    WriteMore(w, nonce);
    HelloJoined(old(w.Produced()), Reply(cfg.code, p, last), Prefixed(cfg.code, sealed.value), nonce);
    FlushIfAuto(w, cfg.autoFlush);
    var cipher := new Cipher(Credential(key, nonce));
    return Ok((cipher, greeting.versions));
  }

  method ReadNonce(src: Source) returns (r: Result<Nonce, Error>)
    modifies src
    ensures Follows(NonceParser(), old(src.pending), r, src.pending)
  {
    var nonce :- ReadFixed(src, NONCE_SIZE);
    return Ok(nonce);
  }

  method ClientStart(src: Source, cfg: Config, rsa: Rsa, last: Result<Bytes, Error>) returns (r: Result<Cipher, Error>)
    requires cfg.code.Lawful()
    modifies src
    ensures last.Err? ==> r.Err? && r.error == last.error && src.pending == old(src.pending)
    ensures last.Ok? ==>
              var p := AnswerParser(cfg.code, rsa, last.value)(old(src.pending));
              && src.pending == Leftover(p)
              && match Concluded(p) {
                   case Ok(c) => r.Ok? && fresh(r.value) && r.value.cell == Some(c)
                   case Err(e) => r.Err? && r.error == e
                 }
  {
    var private :- ReadLast(src, cfg.code, last);
    BindDone(ReplyParser(cfg.code), AfterReply(cfg.code, rsa, private), old(src.pending), (), src.pending);
    var c :- ReadCredential(src, cfg, rsa, private);
    var cipher := new Cipher(c);
    return Ok(cipher);
  }

  method ReadCredential(src: Source, cfg: Config, rsa: Rsa, private: Bytes) returns (r: Result<Credential, Error>)
    requires cfg.code.Lawful()
    modifies src
    ensures Follows(Bind(PrefixedParser(cfg.code), AfterKey(rsa, private)), old(src.pending), r, src.pending)
  {
    var sealed :- ReadPrefixed(src, cfg.code);
    BindDone(PrefixedParser(cfg.code), AfterKey(rsa, private), old(src.pending), sealed, src.pending);
    label AtNonce:
    var nonce :- ReadNonce(src);
    BindDone<Nonce, Credential>(NonceParser(), AfterNonce(rsa, private, sealed),
                                old@AtNonce(src.pending), nonce, src.pending);
    var key := rsa.decrypt(private, sealed);
    if key.None? {
      return Err(Error.RSA);
    }
    if |key.value| != KEY_SIZE {
      return Err(Panicked);
    }
    return Ok(Credential(key.value, nonce));
  }

  // What the two sends share

  /** Takes the cell, seals, and stores the new nonce; on failure the cell stays empty. */
  method SealInCell(aead: Aead, cipher: Cipher, plain: Bytes, next: Nonce) returns (r: Result<Bytes, Error>)
    modifies cipher
    ensures match old(cipher.cell) {
              case None => cipher.cell == None && r == Err(Broken)
              case Some(c) =>
                match aead.seal(c.key, c.nonce, plain) {
                  case None => cipher.cell == None && r == Err(AES)
                  case Some(packet) => cipher.cell == Some(Credential(c.key, next)) && r == Ok(packet)
                }
            }
  {
    var c :- cipher.Get();
    var sealed := aead.seal(c.key, c.nonce, plain);
    if sealed.None? {
      return Err(AES);
    }
    cipher.Reset(Credential(c.key, next));
    return Ok(sealed.value);
  }

  /** The rest of a send, with the packet in contiguous memory. */
  method Transmit(w: Writer, cfg: Config, packet: Bytes) returns (r: Result<(), Error>)
    requires w.Valid()
    modifies w
    ensures w.Valid()
    ensures if |packet| <= cfg.limit then
              r == Ok(()) && w.Produced() == old(w.Produced()) + Prefixed(cfg.code, packet)
            else r == Err(TooLarge(|packet|, cfg.limit)) && w.Produced() == old(w.Produced())
    ensures r.Ok? ==> if cfg.autoFlush then w.visible == w.Produced() else StaysBuffered(w, Prefixed(cfg.code, packet))
    ensures r.Err? ==> w.visible == old(w.visible)
  {
    var bytes := new MessageBuf([packet]);
    assert bytes.Content() == packet + [];
    var _ :- WritePacket(w, cfg, bytes);
    FlushIfAuto(w, cfg.autoFlush);
    return Ok(());
  }

  // Encrypt

  /**
   `next` is the nonce drawn by this call. The message is consumed and the cell updated before
   the size check, so a failed send has still lost the message and, after TooLarge, the nonce.
   */
  method EncryptSend(w: Writer, cfg: Config, aead: Aead, cipher: Cipher, message: MessageBuf, next: Nonce)
    returns (r: Result<(), Error>)
    requires w.Valid()
    modifies w, cipher, message
    ensures w.Valid() && message.Content() == []
    ensures var e := SendOutcome(EncryptStack(aead), cfg, old(cipher.cell), next, old(message.Content()));
      && r == e.result && cipher.cell == e.cell && w.Produced() == old(w.Produced()) + e.produced
      && (r.Ok? ==> if cfg.autoFlush then w.visible == w.Produced() else StaysBuffered(w, e.produced))
    ensures r.Err? ==> w.visible == old(w.visible)
  {
    assert w.Produced() + [] == w.Produced();
    var bytes: Bytes := next;
    var content := Gather(message);
    bytes := bytes + content;
    var packet :- SealInCell(aead, cipher, bytes, next);
    r := Transmit(w, cfg, packet);
  }

  method EncryptRecv(src: Source, cfg: Config, aead: Aead, cipher: Cipher) returns (r: Result<Bytes, Error>)
    requires cfg.code.Lawful()
    modifies src, cipher
    ensures var e := RecvOutcome(EncryptStack(aead), cfg, old(cipher.cell), old(src.pending));
      r == e.result && cipher.cell == e.cell && src.pending == e.rest
  {
    var packet :- ReadPacket(src, cfg);
    var c :- cipher.Get();
    var plain := aead.open(c.key, c.nonce, packet);
    if plain.None? {
      return Err(AES);
    }
    var reader := new Source(plain.value);
    var next :- ReadNonce(reader);
    cipher.Reset(Credential(c.key, next));
    return Ok(reader.pending);
  }

  // Compress and encrypt

  method CompressEncryptSend(w: Writer, cfg: Config, aead: Aead, codec: Codec, cipher: Cipher, message: MessageBuf,
                             next: Nonce)
    returns (r: Result<(), Error>)
    requires w.Valid()
    modifies w, cipher, message
    ensures w.Valid() && message.Content() == []
    ensures var stack := CompressEncryptStack(aead, codec);
      var e := SendOutcome(stack, cfg, old(cipher.cell), next, old(message.Content()));
      && r == e.result && cipher.cell == e.cell && w.Produced() == old(w.Produced()) + e.produced
      && (r.Ok? ==> if cfg.autoFlush then w.visible == w.Produced() else StaysBuffered(w, e.produced))
    ensures r.Err? ==> w.visible == old(w.visible)
  {
    assert w.Produced() + [] == w.Produced();
    var encoder := new DeflateEncoder(codec);
    encoder.WriteMore(next);
    encoder.WriteMoreBuf(message);
    assert encoder.input == next + old(message.Content());
    var bytes := encoder.Finish();
    var packet :- SealInCell(aead, cipher, bytes, next);
    r := Transmit(w, cfg, packet);
  }

  method CompressEncryptRecv(src: Source, cfg: Config, aead: Aead, codec: Codec, cipher: Cipher)
    returns (r: Result<Bytes, Error>)
    requires cfg.code.Lawful()
    modifies src, cipher
    ensures var e := RecvOutcome(CompressEncryptStack(aead, codec), cfg, old(cipher.cell), old(src.pending));
      r == e.result && cipher.cell == e.cell && src.pending == e.rest
  {
    var packet :- ReadPacket(src, cfg);
    var c :- cipher.Get();
    var body := aead.open(c.key, c.nonce, packet);
    if body.None? {
      return Err(AES);
    }
    var plain := codec.inflate(body.value);
    if plain.None? {
      return Err(IO(InvalidData));
    }
    var reader := new Source(plain.value);
    var next :- ReadNonce(reader);
    cipher.Reset(Credential(c.key, next));
    return Ok(reader.pending);
  }
}
