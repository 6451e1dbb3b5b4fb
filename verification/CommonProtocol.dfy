/**
 The shared steps of the protocols (`protocols/common.rs`) on streams and on the cipher
 cell: the head, the state, packets, flushing, and taking and replacing the cell.
 */
module CommonProtocol {
  import opened Wrappers
  import opened Wire
  import opened LengthCodes
  import opened Framing
  import opened Crypto
  import opened Handshake
  import opened Streams
  import opened StreamIo

  /** The length code, the size limit of this endpoint, and whether the `auto_flush` feature is on. */
  datatype Config = Config(code: LengthCode, limit: nat, autoFlush: bool)

  /** The cipher cell, whose mutex one critical section at a time holds. */
  class Cipher {
    var cell: Option<Credential>

    constructor (c: Credential)
      ensures cell == Some(c)
    {
      cell := Some(c);
    }

    /** Takes the credential out; the section that took it has to put one back. */
    method Get() returns (r: Result<Credential, Error>)
      modifies this
      ensures cell == None
      ensures r == match old(cell) { case None => Err(Broken) case Some(c) => Ok(c) }
    {
      match cell {
        case None => return Err(Broken);
        case Some(c) =>
          cell := None;
          return Ok(c);
      }
    }

    method Reset(c: Credential)
      modifies this
      ensures cell == Some(c)
    {
      cell := Some(c);
    }
  }

  method FlushIfAuto(w: Writer, autoFlush: bool)
    requires w.Valid()
    modifies w
    ensures w.Valid() && w.Produced() == old(w.Produced())
    ensures if autoFlush then w.visible == w.Produced() else w.visible == old(w.visible)
  {
    if autoFlush {
      w.Flush();
      assert w.visible + [] == w.visible;
    }
  }

  method WriteHead(w: Writer, code: LengthCode, h: Hello)
    requires w.Valid()
    modifies w
    ensures w.Valid() && w.Produced() == old(w.Produced()) + Head(code, h)
    ensures StaysBuffered(w, Head(code, h))
  {
    WriteMore(w, MAGIC_BYTES);
    assert |w.Produced()| == old(|w.Produced()|) + 4;
    WriteMore(w, U16Bytes(MAGIC_VERSION));
    assert |w.Produced()| == old(|w.Produced()|) + 6;
    WriteBools2(w, BoolsOf(h.variant));
    assert |w.Produced()| == old(|w.Produced()|) + 7;
    WritePrefixed(w, code, h.identifier);
    assert |w.Produced()| == old(|w.Produced()|) + 7 + |Prefixed(code, h.identifier)|;
    WritePrefixed(w, code, h.version);
    HeadSplit(code, h, []);
    Regroup(MAGIC_BYTES, U16Bytes(MAGIC_VERSION), [BoolPairByte(BoolsOf(h.variant))],
            Prefixed(code, h.identifier), Prefixed(code, h.version), []);
    Regrouped(old(w.Produced()), MAGIC_BYTES, U16Bytes(MAGIC_VERSION), [BoolPairByte(BoolsOf(h.variant))],
              Prefixed(code, h.identifier), Prefixed(code, h.version));
  }

  lemma Regrouped(z: Bytes, a: Bytes, b: Bytes, c: Bytes, d: Bytes, e: Bytes)
    ensures z + a + b + c + d + e == z + (a + b + c + d + e)
  {
  }

  method ReadHead(src: Source, code: LengthCode, p: Policy) returns (r: Result<Versions, Error>)
    requires code.Lawful()
    modifies src
    ensures Follows(HeadParser(code, p), old(src.pending), r, src.pending)
  {
    var magic :- ReadFixed(src, 4);
    BindDone(Exact(4), AfterMagic(code, p), old(src.pending), magic, src.pending);
    if magic != MAGIC_BYTES {
      return Err(InvalidStream);
    }
    r := ReadVersionAndRest(src, code, p);
  }

  method ReadVersionAndRest(src: Source, code: LengthCode, p: Policy) returns (r: Result<Versions, Error>)
    requires code.Lawful()
    modifies src
    ensures Follows(Bind(U16(), AfterVersion(code, p)), old(src.pending), r, src.pending)
  {
    var v :- ReadU16(src);
    BindDone(U16(), AfterVersion(code, p), old(src.pending), v, src.pending);
    if v != MAGIC_VERSION {
      return Err(InvalidStream);
    }
    r := ReadProtocolAndRest(src, code, p, v);
  }

  method ReadProtocolAndRest(src: Source, code: LengthCode, p: Policy, v: nat) returns (r: Result<Versions, Error>)
    requires code.Lawful()
    modifies src
    ensures Follows(Bind(BoolPair(), AfterProtocol(code, p, v)), old(src.pending), r, src.pending)
  {
    var b :- ReadBools2(src);
    BindDone(BoolPair(), AfterProtocol(code, p, v), old(src.pending), b, src.pending);
    if VariantOf(b) != p.variant {
      return Err(InvalidProtocol(VariantOf(b)));
    }
    r := ReadStrings(src, code, p, v);
  }

  method ReadStrings(src: Source, code: LengthCode, p: Policy, v: nat) returns (r: Result<Versions, Error>)
    requires code.Lawful()
    modifies src
    ensures Follows(Bind(PrefixedParser(code), AfterIdentifier(code, p, v)), old(src.pending), r, src.pending)
  {
    var i :- ReadPrefixed(src, code);
    BindDone(PrefixedParser(code), AfterIdentifier(code, p, v), old(src.pending), i, src.pending);
    if i != p.identifier {
      return Err(InvalidIdentifier(i));
    }
    label L:
    var w :- ReadPrefixed(src, code);
    BindDone(PrefixedParser(code), AfterApplicationVersion(p, v), old@L(src.pending), w, src.pending);
    if !p.accepts(w) {
      return Err(InvalidVersion(w));
    }
    return Ok(Versions(v, w));
  }

  /** A rejection that fits into the free space of the writer's buffer stays in the buffer. */
  method WriteLast<T>(w: Writer, code: LengthCode, p: Policy, last: Result<T, Error>) returns (r: Result<T, Error>)
    requires w.Valid()
    modifies w
    ensures w.Valid() && r == last && w.Produced() == old(w.Produced()) + Reply(code, p, last)
    ensures old(|w.buffer|) + |Reply(code, p, last)| <= w.capacity && 1 < w.capacity ==>
              w.visible == old(w.visible)
    ensures PushesOut(w, |Reply(code, p, last)|)
    ensures last.Err? && Answered(last.error) ==> EndsWith(w, LastField(code, p, last.error))
  {
    match last {
      case Ok(_) =>
        WriteBools2(w, (true, true));
      case Err(InvalidProtocol(_)) =>
        WriteOwnProtocol(w, p);
      case Err(InvalidIdentifier(_)) =>
        WriteOwnString(w, code, (false, true), p.identifier);
      case Err(InvalidVersion(_)) =>
        WriteOwnString(w, code, (true, false), p.version);
      case Err(_) =>
        assert w.Produced() + [] == w.Produced();
    }
    return last;
  }

  method WriteOwnProtocol(w: Writer, p: Policy)
    requires w.Valid()
    modifies w
    ensures w.Valid()
    ensures w.Produced() == old(w.Produced()) + ([BoolPairByte((false, false))] + [BoolPairByte(BoolsOf(p.variant))])
    ensures old(|w.buffer|) + 2 <= w.capacity ==> w.visible == old(w.visible)
    ensures PushesOut(w, 2) && EndsWith(w, [BoolPairByte(BoolsOf(p.variant))])
  {
    WriteState(w, (false, false));
    WriteBools2(w, BoolsOf(p.variant));
  }

  method WriteOwnString(w: Writer, code: LengthCode, state: (bool, bool), own: Bytes)
    requires w.Valid()
    modifies w
    ensures w.Valid() && w.Produced() == old(w.Produced()) + ([BoolPairByte(state)] + Prefixed(code, own))
    ensures old(|w.buffer|) + 1 + |Prefixed(code, own)| <= w.capacity && 1 < w.capacity ==> w.visible == old(w.visible)
    ensures PushesOut(w, 1 + |Prefixed(code, own)|)
    ensures EndsWith(w, LastChunk(code, own))
  {
    WriteState(w, state);
    WritePrefixed(w, code, own);
  }

  method WriteState(w: Writer, b: (bool, bool))
    requires w.Valid()
    modifies w
    ensures w.Valid() && w.Produced() == old(w.Produced()) + [BoolPairByte(b)]
    ensures old(|w.buffer|) + 1 <= w.capacity && 1 < w.capacity ==>
              w.visible == old(w.visible) && |w.buffer| == old(|w.buffer|) + 1
    ensures PushesOut(w, 1)
  {
    WriteBools2(w, b);
    assert |w.Produced()| == old(|w.Produced()|) + 1;
  }

  method ReadLast<T>(src: Source, code: LengthCode, last: Result<T, Error>) returns (r: Result<T, Error>)
    requires code.Lawful()
    modifies src
    ensures last.Err? ==> r == last && src.pending == old(src.pending)
    ensures last.Ok? ==>
              var p := ReplyParser(code)(old(src.pending));
              src.pending == Leftover(p) && r == match Concluded(p) { case Ok(_) => last case Err(e) => Err(e) }
  {
    var extra :- last;
    var b :- ReadBools2(src);
    label L:
    BindDone(BoolPair(), AfterState(code), old(src.pending), b, src.pending);
    match b {
      case (true, true) =>
        return Ok(extra);
      case (false, false) =>
        var v :- ReadBools2(src);
        BindDone(BoolPair(), TheirProtocol, old@L(src.pending), v, src.pending);
        return Err(InvalidProtocol(VariantOf(v)));
      case (false, true) =>
        var i :- ReadPrefixed(src, code);
        BindDone(PrefixedParser(code), TheirIdentifier, old@L(src.pending), i, src.pending);
        return Err(InvalidIdentifier(i));
      case (true, false) =>
        var v :- ReadPrefixed(src, code);
        BindDone(PrefixedParser(code), TheirVersion, old@L(src.pending), v, src.pending);
        return Err(InvalidVersion(v));
    }
  }

  function CheckBytesLen(len: nat, limit: nat): Result<(), Error> {
    if len > limit then Err(TooLarge(len, limit)) else Ok(())
  }

  /** Nothing is written and the message keeps its bytes when it is too large. */
  method WritePacket(w: Writer, cfg: Config, message: MessageBuf) returns (r: Result<(), Error>)
    requires w.Valid()
    modifies w, message
    ensures w.Valid()
    ensures var m := old(message.Content());
      if |m| <= cfg.limit then
        r == Ok(()) && w.Produced() == old(w.Produced()) + Prefixed(cfg.code, m) && message.Content() == []
      else
        && r == Err(TooLarge(|m|, cfg.limit))
        && w.Produced() == old(w.Produced()) && w.visible == old(w.visible) && message.Content() == m
    ensures r.Ok? ==> StaysBuffered(w, Prefixed(cfg.code, old(message.Content())))
  {
    var len := message.Remaining();
    var _ :- CheckBytesLen(len, cfg.limit);
    WriteMore(w, cfg.code.encode(len));
    assert |w.Produced()| == old(|w.Produced()|) + |cfg.code.encode(len)|;
    WriteMoreBuf(w, message);
    assert old(w.Produced()) + cfg.code.encode(len) + old(message.Content()) ==
           old(w.Produced()) + Prefixed(cfg.code, old(message.Content()));
    return Ok(());
  }

  /** A packet, whatever the chunks in which it arrives; what follows it is not touched. */
  method ReadPacket(src: Source, cfg: Config) returns (r: Result<Bytes, Error>)
    requires cfg.code.Lawful()
    modifies src
    ensures Follows(PacketParser(cfg.code, cfg.limit), old(src.pending), r, src.pending)
  {
    var len :- ReadLength(src, cfg.code);
    var _ :- CheckBytesLen(len, cfg.limit);
    r := ReadMoreBuf(src, len);
  }
}
