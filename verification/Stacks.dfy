/**
 The four protocols as one pipeline: an optional compressor under an optional cipher.
 `SealMessage` and `OpenMessage` are the parts of `send` and `recv` between the caller's
 message and the packet body, with what they do to the cipher cell.
 */
module Stacks {
  import opened Wrappers
  import opened Wire
  import opened Crypto

  datatype Stack = Stack(cipher: Option<Aead>, codec: Option<Codec>) {

    ghost predicate Lawful() {
      && (cipher.Some? ==> cipher.value.Lawful())
      && (codec.Some? ==> codec.value.Lawful())
    }

    function Pack(plain: Bytes): Bytes {
      if codec.Some? then codec.value.deflate(plain) else plain
    }

    function Unpack(body: Bytes): Option<Bytes> {
      if codec.Some? then codec.value.inflate(body) else Some(body)
    }

    /** The packet body before sealing: an encrypted message carries the nonce of the next packet. */
    function Body(next: Nonce, message: Bytes): Bytes {
      Pack(if cipher.Some? then next + message else message)
    }

    function PacketSize(next: Nonce, message: Bytes): nat {
      |Body(next, message)| + if cipher.Some? then TAG_SIZE else 0
    }

    /** Whether the cipher accepts the body at all. */
    predicate Sealable(next: Nonce, message: Bytes) {
      cipher.Some? ==> |Body(next, message)| <= cipher.value.maxPlain
    }

    /** The new cell, and the packet or the error: the cell is taken first and only replaced after sealing. */
    function SealMessage(cell: Option<Credential>, next: Nonce, message: Bytes)
      : (Option<Credential>, Result<Bytes, Error>)
    {
      if cipher.None? then (cell, Ok(Body(next, message)))
      else if cell.None? then (None, Err(Broken))
      else
        var Credential(key, nonce) := cell.value;
        match cipher.value.seal(key, nonce, Body(next, message))
        case None => (None, Err(AES))
        case Some(packet) => (Some(Credential(key, next)), Ok(packet))
    }

    /** The new cell, and the message or the error: any failure after the cell was taken leaves it empty. */
    function OpenMessage(cell: Option<Credential>, packet: Bytes): (Option<Credential>, Result<Bytes, Error>) {
      if cipher.None? then
        match Unpack(packet)
        case None => (cell, Err(IO(InvalidData)))
        case Some(message) => (cell, Ok(message))
      else if cell.None? then (None, Err(Broken))
      else
        var Credential(key, nonce) := cell.value;
        match cipher.value.open(key, nonce, packet)
        case None => (None, Err(AES))
        case Some(body) =>
          match Unpack(body)
          case None => (None, Err(IO(InvalidData)))
          case Some(plain) =>
            if |plain| < NONCE_SIZE then (None, Err(IO(UnexpectedEof)))
            else (Some(Credential(key, plain[..NONCE_SIZE])), Ok(plain[NONCE_SIZE..]))
    }
  }

  lemma UnpackPack(stack: Stack, plain: Bytes)
    requires stack.Lawful()
    ensures stack.Unpack(stack.Pack(plain)) == Some(plain)
  {
  }

  lemma SplitNonce(next: Nonce, message: Bytes)
    ensures (next + message)[..NONCE_SIZE] == next
    ensures (next + message)[NONCE_SIZE..] == message
  {
  }

  /** The cipher's laws at the cell and body that `SealMessage` uses. */
  lemma SealLaws(stack: Stack, c: Credential, next: Nonce, message: Bytes)
    requires stack.Lawful() && stack.cipher.Some?
    ensures var r := stack.SealMessage(Some(c), next, message);
      if stack.Sealable(next, message) then
        && r.1.Ok? && r.0 == Some(Credential(c.key, next))
        && |r.1.value| == stack.PacketSize(next, message)
        && stack.cipher.value.open(c.key, c.nonce, r.1.value) == Some(stack.Body(next, message))
        && forall m: Nonce :: m != c.nonce ==> stack.cipher.value.open(c.key, m, r.1.value) == None
      else r == (None, Err(AES))
  {
    AeadLaws(stack.cipher.value, c.key, c.nonce, stack.Body(next, message));
  }

  /**
   Pipeline inversion, for every message: the peer whose cell equals the sender's gets exactly
   the message and ends with exactly the sender's new cell.
   */
  lemma PipelineInversion(stack: Stack, cell: Option<Credential>, next: Nonce, message: Bytes)
    requires stack.Lawful()
    requires stack.SealMessage(cell, next, message).1.Ok?
    ensures var (sender, packet) := stack.SealMessage(cell, next, message);
      && stack.OpenMessage(cell, packet.value) == (sender, Ok(message))
      && |packet.value| == stack.PacketSize(next, message)
      && (stack.cipher.Some? ==> sender == Some(Credential(cell.value.key, next)))
  {
    UnpackPack(stack, if stack.cipher.Some? then next + message else message);
    SplitNonce(next, message);
    if stack.cipher.Some? {
      SealLaws(stack, cell.value, next, message);
    }
  }

  /** Sealing succeeds iff the cell is live and the cipher takes the body; when it does not, the cell is lost. */
  lemma SealFailure(stack: Stack, cell: Option<Credential>, next: Nonce, message: Bytes)
    requires stack.Lawful() && stack.cipher.Some?
    ensures var (after, r) := stack.SealMessage(cell, next, message);
      && (r.Ok? <==> cell.Some? && stack.Sealable(next, message))
      && (after.Some? <==> r.Ok?)
      && (r.Err? ==> r.error == if cell.None? then Broken else AES)
  {
    if cell.Some? {
      SealLaws(stack, cell.value, next, message);
    }
  }

  /**
   A packet opened under any other nonce of the same key gives an AES failure and empties
   the cell, and with an empty cell every packet is answered by `Broken`.
   */
  lemma WrongNonce(stack: Stack, cell: Option<Credential>, next: Nonce, message: Bytes, other: Nonce)
    requires stack.Lawful() && stack.cipher.Some?
    requires stack.SealMessage(cell, next, message).1.Ok? && other != cell.value.nonce
    ensures var packet := stack.SealMessage(cell, next, message).1.value;
      && stack.OpenMessage(Some(Credential(cell.value.key, other)), packet) == (None, Err(AES))
      && stack.OpenMessage(None, packet) == (None, Err(Broken))
  {
    SealLaws(stack, cell.value, next, message);
  }

  /** An authentic packet that unpacks to less than a nonce leaves the cell broken. */
  lemma ShortPlaintextBreaks(stack: Stack, c: Credential, plain: Bytes)
    requires stack.Lawful() && stack.cipher.Some? && |stack.Pack(plain)| <= stack.cipher.value.maxPlain
    ensures stack.cipher.value.seal(c.key, c.nonce, stack.Pack(plain)).Some?
    ensures var packet := stack.cipher.value.seal(c.key, c.nonce, stack.Pack(plain)).value;
      stack.OpenMessage(Some(c), packet) ==
      if |plain| < 12 then (None, Err(IO(UnexpectedEof)))
      else (Some(Credential(c.key, plain[..12])), Ok(plain[12..]))
  {
    AeadLaws(stack.cipher.value, c.key, c.nonce, stack.Pack(plain));
    UnpackPack(stack, plain);
  }

  /** Bytes that do not inflate are an I/O error; with a cipher, which opened them, the cell is lost. */
  lemma GarbageBreaks(stack: Stack, c: Credential, body: Bytes)
    requires stack.Lawful() && stack.codec.Some? && stack.codec.value.inflate(body).None?
    ensures stack.cipher.None? ==> forall cell :: stack.OpenMessage(cell, body) == (cell, Err(IO(InvalidData)))
    ensures stack.cipher.Some? && |body| <= stack.cipher.value.maxPlain ==>
              var packet := stack.cipher.value.seal(c.key, c.nonce, body);
              packet.Some? && stack.OpenMessage(Some(c), packet.value) == (None, Err(IO(InvalidData)))
  {
    if stack.cipher.Some? {
      AeadLaws(stack.cipher.value, c.key, c.nonce, body);
    }
  }

  /** What a packet is made of: a cipher puts the 12 bytes of the next nonce in front, and adds a tag of 16. */
  lemma PacketLayout(stack: Stack, next: Nonce, message: Bytes)
    ensures |next| == 12
    ensures var plain := if stack.cipher.Some? then next + message else message;
      && stack.Body(next, message) == (if stack.codec.Some? then stack.codec.value.deflate(plain) else plain)
      && stack.PacketSize(next, message) == |stack.Body(next, message)| + if stack.cipher.Some? then 16 else 0
  {
  }
}
