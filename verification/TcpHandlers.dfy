/**
 The handler over a split stream (`streams/mod.rs`): one reader, one writer, and, for the
 encrypting stacks, one cipher cell that both directions share.
 */
module TcpHandlers {
  import opened Wrappers
  import opened Wire
  import opened Crypto
  import opened Stacks
  import opened Streams
  import opened StreamIo
  import opened CommonProtocol
  import opened Transport
  import opened PlainProtocols
  import opened CipherProtocols

  class Handler {
    const stack: Stack
    const cfg: Config
    const reader: Source
    const writer: Writer
    const cipher: Cipher?

    constructor (stack: Stack, cfg: Config, reader: Source, writer: Writer, cipher: Cipher?)
      requires cfg.code.Lawful() && writer.Valid() && (stack.cipher.Some? <==> cipher != null)
      ensures Valid() && this.stack == stack && this.cfg == cfg
      ensures this.reader == reader && this.writer == writer && this.cipher == cipher
    {
      this.stack, this.cfg := stack, cfg;
      this.reader, this.writer, this.cipher := reader, writer, cipher;
    }

    ghost predicate Valid()
      reads writer
    {
      cfg.code.Lawful() && writer.Valid() && (stack.cipher.Some? <==> cipher != null)
    }

    ghost function Cell(): Option<Credential>
      reads cipher
    {
      if cipher == null then None else cipher.cell
    }

    /** What a send leaves of its message: raw keeps one that it did not send, the others consume it in any case. */
    function Kept(sent: bool, message: Bytes): Bytes {
      if stack.cipher.None? && stack.codec.None? && !sent then message else []
    }

    method Send(message: MessageBuf, next: Nonce) returns (r: Result<(), Error>)
      requires Valid()
      modifies writer, cipher, message
      ensures Valid()
      ensures var e := SendOutcome(stack, cfg, old(Cell()), next, old(message.Content()));
        && r == e.result && Cell() == e.cell && writer.Produced() == old(writer.Produced()) + e.produced
        && (r.Ok? ==> if cfg.autoFlush then writer.visible == writer.Produced() else StaysBuffered(writer, e.produced))
      ensures r.Err? ==> writer.visible == old(writer.visible)
      ensures message.Content() == Kept(r.Ok?, old(message.Content()))
    {
      match (stack.cipher, stack.codec) {
        case (None, None) => r := RawSend(writer, cfg, message, next);
        case (None, Some(codec)) => r := CompressSend(writer, cfg, codec, message, next);
        case (Some(aead), None) => r := EncryptSend(writer, cfg, aead, cipher, message, next);
        case (Some(aead), Some(codec)) => r := CompressEncryptSend(writer, cfg, aead, codec, cipher, message, next);
      }
    }

    method Recv() returns (r: Result<Bytes, Error>)
      requires Valid()
      modifies reader, cipher
      ensures Valid()
      ensures var e := RecvOutcome(stack, cfg, old(Cell()), old(reader.pending));
        r == e.result && Cell() == e.cell && reader.pending == e.rest
    {
      match (stack.cipher, stack.codec) {
        case (None, None) => r := RawRecv(reader, cfg);
        case (None, Some(codec)) => r := CompressRecv(reader, cfg, codec);
        case (Some(aead), None) => r := EncryptRecv(reader, cfg, aead, cipher);
        case (Some(aead), Some(codec)) => r := CompressEncryptRecv(reader, cfg, aead, codec, cipher);
      }
    }

    /** A failed send ends the call before anything is read; otherwise the receive continues with the cell it left. */
    method SendRecv(message: MessageBuf, next: Nonce) returns (r: Result<Bytes, Error>)
      requires Valid()
      modifies reader, writer, cipher, message
      ensures Valid()
      ensures var s := SendOutcome(stack, cfg, old(Cell()), next, old(message.Content()));
        && writer.Produced() == old(writer.Produced()) + s.produced
        && message.Content() == Kept(s.result.Ok?, old(message.Content()))
        && (if s.result.Err? then writer.visible == old(writer.visible)
            else if cfg.autoFlush then writer.visible == writer.Produced() else StaysBuffered(writer, s.produced))
        && if s.result.Err? then r == Err(s.result.error) && reader.pending == old(reader.pending) && Cell() == s.cell
           else
             var e := RecvOutcome(stack, cfg, s.cell, old(reader.pending));
             r == e.result && Cell() == e.cell && reader.pending == e.rest
    {
      var _ :- Send(message, next);
      r := Recv();
    }
  }
}
