/** The protocols without encryption: `protocols/raw.rs` and `protocols/compress.rs`. */
module PlainProtocols {
  import opened Wrappers
  import opened Wire
  import opened Crypto
  import opened Handshake
  import opened Streams
  import opened StreamIo
  import opened CommonProtocol
  import opened Transport

  // The handshake, which the two protocols share but for their variant

  method ClientInit(w: Writer, cfg: Config, h: Hello)
    requires w.Valid()
    modifies w
    ensures w.Valid() && w.Produced() == old(w.Produced()) + Head(cfg.code, h)
    ensures if cfg.autoFlush then w.visible == w.Produced() else StaysBuffered(w, Head(cfg.code, h))
  {
    WriteHead(w, cfg.code, h);
    FlushIfAuto(w, cfg.autoFlush);
  }

  /**
   An acceptance is flushed. A rejection is not: if it fits into the writer's buffer it stays
   there, and if it does not it pushes out all that was written before. The client learns the
   reason iff nothing is left in the buffer, and otherwise meets the end of the stream; which of
   the two it is the capacity decides before the call, unless the last field of the answer is no
   shorter than the capacity and the transport may take any part of it.
   */
  method ServerStart(w: Writer, cfg: Config, p: Policy, last: Result<Versions, Error>)
    returns (r: Result<Versions, Error>)
    requires w.Valid()
    modifies w
    ensures w.Valid() && r == last && w.Produced() == old(w.Produced()) + Reply(cfg.code, p, last)
    ensures r.Ok? ==> if cfg.autoFlush then w.visible == w.Produced() else StaysBuffered(w, Reply(cfg.code, p, last))
    ensures r.Err? && old(|w.buffer|) + |Reply(cfg.code, p, last)| <= w.capacity && 1 < w.capacity ==>
              w.visible == old(w.visible)
    ensures r.Err? && old(|w.buffer|) + |Reply(cfg.code, p, last)| > w.capacity ==>
              old(w.Produced()) <= w.visible && w.visible != old(w.visible)
    ensures r.Err? && old(w.Produced()) == [] && cfg.code.Lawful() && PolicySized(p) ==>
              var learnt := Learnt(p, r.error, w.buffer == []);
              && Concluded(ReplyParser(cfg.code)(w.visible)) == Err(learnt)
              && (Answered(r.error) ==> ReasonFate(cfg.code, p, r.error, w.capacity, learnt))
  {
    var written := WriteLast(w, cfg.code, p, last);
    assert |w.Produced()| == |old(w.Produced())| + |Reply(cfg.code, p, last)|;
    if last.Err? && old(w.Produced()) == [] && cfg.code.Lawful() && PolicySized(p) {
      WhatIsLearnt(cfg.code, p, last, w.visible, w.buffer);
      if Answered(last.error) {
        FateDecided(cfg.code, p, last.error, w.capacity, w.buffer);
      }
    }
    var res :- written;
    FlushIfAuto(w, cfg.autoFlush);
    return Ok(res);
  }

  // Raw

  method RawSend(w: Writer, cfg: Config, message: MessageBuf, ghost next: Nonce) returns (r: Result<(), Error>)
    requires w.Valid()
    modifies w, message
    ensures w.Valid()
    ensures var e := SendOutcome(RawStack(), cfg, None, next, old(message.Content()));
      && r == e.result && w.Produced() == old(w.Produced()) + e.produced
      && (r.Ok? ==> if cfg.autoFlush then w.visible == w.Produced() else StaysBuffered(w, e.produced))
    ensures r.Ok? ==> message.Content() == []
    ensures r.Err? ==> message.Content() == old(message.Content()) && w.visible == old(w.visible)
  {
    assert w.Produced() + [] == w.Produced();
    var _ :- WritePacket(w, cfg, message);
    FlushIfAuto(w, cfg.autoFlush);
    return Ok(());
  }

  method RawRecv(src: Source, cfg: Config) returns (r: Result<Bytes, Error>)
    requires cfg.code.Lawful()
    modifies src
    ensures var e := RecvOutcome(RawStack(), cfg, None, old(src.pending));
      r == e.result && src.pending == e.rest
  {
    r := ReadPacket(src, cfg);
  }

  // Compress

  /** The streaming compressor of flate2: what was written to it, until `Finish`. */
  class DeflateEncoder {
    const codec: Codec
    var input: Bytes

    constructor (codec: Codec)
      ensures this.codec == codec && input == []
    {
      this.codec := codec;
      input := [];
    }

    method WriteMore(bytes: Bytes)
      modifies this
      ensures input == old(input) + bytes
    {
      input := input + bytes;
    }

    method WriteMoreBuf(buf: MessageBuf)
      modifies this, buf
      ensures input == old(input) + old(buf.Content()) && buf.Content() == []
    {
      var bytes := Gather(buf);
      input := input + bytes;
    }

    method Finish() returns (packed: Bytes)
      ensures packed == codec.deflate(input)
    {
      packed := codec.deflate(input);
    }
  }

  method CompressSend(w: Writer, cfg: Config, codec: Codec, message: MessageBuf, ghost next: Nonce)
    returns (r: Result<(), Error>)
    requires w.Valid()
    modifies w, message
    ensures w.Valid() && message.Content() == []
    ensures var e := SendOutcome(CompressStack(codec), cfg, None, next, old(message.Content()));
      && r == e.result && w.Produced() == old(w.Produced()) + e.produced
      && (r.Ok? ==> if cfg.autoFlush then w.visible == w.Produced() else StaysBuffered(w, e.produced))
    ensures r.Err? ==> w.visible == old(w.visible)
  {
    assert w.Produced() + [] == w.Produced();
    var encoder := new DeflateEncoder(codec);
    encoder.WriteMoreBuf(message);
    assert encoder.input == old(message.Content());
    var packed := encoder.Finish();
    var bytes := new MessageBuf([packed]);
    assert bytes.Content() == packed + [];
    var _ :- WritePacket(w, cfg, bytes);
    FlushIfAuto(w, cfg.autoFlush);
    return Ok(());
  }

  method CompressRecv(src: Source, cfg: Config, codec: Codec) returns (r: Result<Bytes, Error>)
    requires cfg.code.Lawful()
    modifies src
    ensures var e := RecvOutcome(CompressStack(codec), cfg, None, old(src.pending));
      r == e.result && src.pending == e.rest
  {
    var packed :- ReadPacket(src, cfg);
    match codec.inflate(packed) {
      case None => return Err(IO(InvalidData));
      case Some(message) => return Ok(message);
    }
  }
}
