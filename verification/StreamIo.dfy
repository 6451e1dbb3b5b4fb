/**
 Whole reads and writes over streams that take and deliver bytes in pieces, and the fields
 built from them. Every reader does what its parser says of the bytes to come.
 */
module StreamIo {
  import opened Wrappers
  import opened Wire
  import opened LengthCodes
  import opened Framing
  import opened Handshake
  import opened Streams

  /** A reader that found `before` ahead, returned `r` and left `after`. */
  ghost predicate Follows<T(!new)>(p: Parser<T>, before: Bytes, r: Result<T, Error>, after: Bytes) {
    r == Concluded(p(before)) && after == Leftover(p(before))
  }

  /** A write that fits into what is free of the writer's buffer stays there. */
  twostate predicate StaysBuffered(w: Writer, data: Bytes)
    reads w
  {
    old(|w.buffer|) + |data| <= w.capacity && |data| < w.capacity ==> w.visible == old(w.visible)
  }

  /** A write that does not fit pushes out all that was written before it; nothing visible is taken back. */
  twostate predicate PushesOut(w: Writer, count: nat)
    reads w
  {
    && old(w.visible) <= w.visible
    && (old(|w.buffer|) + count > w.capacity ==> old(w.Produced()) <= w.visible)
  }

  /** Data short of the capacity ends up in the buffer, whether it fits or not; a buffer of one byte keeps nothing. */
  ghost predicate EndsWith(w: Writer, data: Bytes)
    reads w
  {
    && (|data| < w.capacity ==> |data| <= |w.buffer|)
    && (w.capacity <= 1 && data != [] ==> w.buffer == [])
  }

  method WriteMore(w: Writer, data: Bytes)
    requires w.Valid()
    modifies w
    ensures w.Valid() && w.Produced() == old(w.Produced()) + data
    ensures StaysBuffered(w, data) && PushesOut(w, |data|) && EndsWith(w, data)
    ensures data == [] ==> w.buffer == old(w.buffer)
  {
    var done := 0;
    while done < |data|
      invariant done <= |data| && w.Valid() && w.Produced() == old(w.Produced()) + data[..done]
      invariant old(|w.buffer|) + |data| <= w.capacity && |data| < w.capacity ==>
                  w.visible == old(w.visible) && |w.buffer| == old(|w.buffer|) + done
      invariant old(w.visible) <= w.visible
      invariant done == 0 ==> w.visible == old(w.visible) && w.buffer == old(w.buffer)
      invariant done > 0 && old(|w.buffer|) + |data| > w.capacity ==> old(w.Produced()) <= w.visible
      invariant done > 0 && |data| < w.capacity ==> done == |data| <= |w.buffer|
      invariant done > 0 && w.capacity <= 1 ==> w.buffer == []
    {
      ghost var before := w.Produced();
      var n := w.Write(data[done..]);
      assert data[done..][..n] == data[done..done + n];
      assert data[..done] + data[done..done + n] == data[..done + n];
      assert w.Produced() == old(w.Produced()) + (data[..done] + data[done..done + n]);
      done := done + n;
    }
    assert data[..done] == data;
  }

  /** The same from a message buffer, which it empties. */
  method WriteMoreBuf(w: Writer, buf: MessageBuf)
    requires w.Valid()
    modifies w, buf
    ensures w.Valid() && w.Produced() == old(w.Produced()) + old(buf.Content())
    ensures buf.Content() == [] && StaysBuffered(w, old(buf.Content()))
  {
    ghost var all := buf.Content();
    ghost var done: Bytes := [];
    var chunk := buf.Chunk();
    while chunk != []
      invariant w.Valid() && w.Produced() == old(w.Produced()) + done
      invariant done + buf.Content() == all
      invariant old(|w.buffer|) + |all| <= w.capacity && |all| < w.capacity ==>
                  w.visible == old(w.visible) && |w.buffer| == old(|w.buffer|) + |done|
      invariant chunk <= buf.Content() && (chunk == [] <==> buf.Content() == [])
      decreases |buf.Content()|
    {
      ghost var rest := buf.Content();
      var n := w.Write(chunk);
      buf.Advance(n);
      TakenFromRest(old(w.Produced()), done, chunk, rest, n);
      done := done + chunk[..n];
      chunk := buf.Chunk();
    }
    assert done == all;
  }

  lemma TakenFromRest(start: Bytes, done: Bytes, chunk: Bytes, rest: Bytes, n: nat)
    requires chunk <= rest && n <= |chunk|
    ensures start + done + chunk[..n] == start + (done + chunk[..n])
    ensures done + chunk[..n] + rest[n..] == done + rest
  {
    assert chunk[..n] == rest[..n] && rest == rest[..n] + rest[n..];
  }

  /** A message buffer into memory. */
  method Gather(buf: MessageBuf) returns (bytes: Bytes)
    modifies buf
    ensures bytes == old(buf.Content()) && buf.Content() == []
  {
    bytes := [];
    var chunk := buf.Chunk();
    while chunk != []
      invariant bytes + buf.Content() == old(buf.Content())
      invariant chunk <= buf.Content() && (chunk == [] <==> buf.Content() == [])
      decreases |buf.Content()|
    {
      ghost var rest := buf.Content();
      assert rest == chunk + rest[|chunk|..];
      assert bytes + rest == bytes + chunk + rest[|chunk|..];
      bytes := bytes + chunk;
      buf.Advance(|chunk|);
      chunk := buf.Chunk();
    }
  }

  /** Fills the array. */
  method ReadMore(src: Source, into: array<byte>) returns (r: Result<(), Error>)
    modifies src, into
    ensures var p := Exact(into.Length)(old(src.pending));
      && src.pending == Leftover(p)
      && (if p.Done? then r == Ok(()) && into[..] == p.value else r == Err(IO(UnexpectedEof)))
  {
    ghost var all := src.pending;
    var filled := 0;
    while filled < into.Length
      invariant filled <= into.Length
      invariant into[..filled] + src.pending == all
    {
      var chunk := src.Poll(into.Length - filled);
      if chunk == [] {
        assert |all| == filled;
        return Err(IO(UnexpectedEof));
      }
      ghost var had := into[..filled];
      assert had + (chunk + src.pending) == had + chunk + src.pending;
      forall i | 0 <= i < |chunk| {
        into[filled + i] := chunk[i];
      }
      assert into[..filled + |chunk|] == had + chunk;
      filled := filled + |chunk|;
    }
    assert into[..] == into[..filled];
    assert all[..filled] == into[..] && all[filled..] == src.pending;
    return Ok(());
  }

  /** A field of fixed size, through an array of that size. */
  method ReadFixed(src: Source, size: nat) returns (r: Result<Bytes, Error>)
    modifies src
    ensures Follows(Exact(size), old(src.pending), r, src.pending)
  {
    var field := new byte[size];
    var m := ReadMore(src, field);
    if m.Err? {
      return Err(m.error);
    }
    return Ok(field[..]);
  }

  /** Into memory, up to a limit. */
  method ReadMoreBuf(src: Source, limit: nat) returns (r: Result<Bytes, Error>)
    modifies src
    ensures Follows(Exact(limit), old(src.pending), r, src.pending)
  {
    ghost var all := src.pending;
    var bytes: Bytes := [];
    while |bytes| < limit
      invariant |bytes| <= limit && bytes + src.pending == all
      decreases limit - |bytes|
    {
      var chunk := src.Poll(limit - |bytes|);
      if chunk == [] {
        assert |all| == |bytes|;
        return Err(IO(UnexpectedEof));
      }
      assert bytes + (chunk + src.pending) == bytes + chunk + src.pending;
      bytes := bytes + chunk;
    }
    assert all[..limit] == bytes && all[limit..] == src.pending;
    return Ok(bytes);
  }

  method ReadByte(src: Source) returns (r: Result<byte, Error>)
    modifies src
    ensures if old(src.pending) == [] then r == Err(IO(UnexpectedEof)) && src.pending == []
            else r == Ok(old(src.pending)[0]) && src.pending == old(src.pending)[1..]
  {
    var b :- ReadFixed(src, 1);
    return Ok(b[0]);
  }

  method WriteBools2(w: Writer, b: (bool, bool))
    requires w.Valid()
    modifies w
    ensures w.Valid() && w.Produced() == old(w.Produced()) + [BoolPairByte(b)]
    ensures StaysBuffered(w, [BoolPairByte(b)]) && PushesOut(w, 1) && EndsWith(w, [BoolPairByte(b)])
  {
    WriteMore(w, [BoolPairByte(b)]);
  }

  method ReadBools2(src: Source) returns (r: Result<(bool, bool), Error>)
    modifies src
    ensures Follows(BoolPair(), old(src.pending), r, src.pending)
  {
    var b :- ReadByte(src);
    if b >= 4 {
      return Err(IO(InvalidData));
    }
    return Ok((b % 2 == 1, b >= 2));
  }

  method ReadU16(src: Source) returns (r: Result<nat, Error>)
    modifies src
    ensures Follows(U16(), old(src.pending), r, src.pending)
  {
    var b :- ReadFixed(src, 2);
    return Ok(b[0] as nat * 256 + b[1] as nat);
  }

  /** A length, one byte at a time, stopping at the byte that completes it. */
  method ReadLength(src: Source, code: LengthCode) returns (r: Result<nat, Error>)
    requires code.Lawful()
    modifies src
    ensures Follows(code.decode, old(src.pending), r, src.pending)
  {
    ghost var all := src.pending;
    var seen: Bytes := [];
    while true
      invariant code.decode(seen).More? && seen + src.pending == all
      decreases |src.pending|
    {
      var next := ReadByte(src);
      if next.Err? {
        assert seen == all;
        return Err(next.error);
      }
      var longer := seen + [next.value];
      assert longer + src.pending == all;
      var p := code.decode(longer);
      assert !p.More? ==> p.rest == [];
      if !p.More? {
        assert code.decode(all) == p.Extend(src.pending);
        assert [] + src.pending == src.pending;
        return if p.Done? then Ok(p.value) else Err(p.error);
      }
      seen := longer;
    }
  }

  /** A string or a byte vector. */
  method WritePrefixed(w: Writer, code: LengthCode, body: Bytes)
    requires w.Valid()
    modifies w
    ensures w.Valid() && w.Produced() == old(w.Produced()) + Prefixed(code, body)
    ensures StaysBuffered(w, Prefixed(code, body))
    ensures PushesOut(w, |Prefixed(code, body)|) && EndsWith(w, LastChunk(code, body))
  {
    var length := code.encode(|body|);
    WriteMore(w, length);
    label L:
    assert |w.Produced()| == old(|w.Produced()|) + |length|;
    WriteMore(w, body);
    assert old(w.Produced()) + length + body == old(w.Produced()) + Prefixed(code, body);
  }

  method ReadPrefixed(src: Source, code: LengthCode) returns (r: Result<Bytes, Error>)
    requires code.Lawful()
    modifies src
    ensures Follows(PrefixedParser(code), old(src.pending), r, src.pending)
  {
    var n :- ReadLength(src, code);
    r := ReadMoreBuf(src, n);
  }
}
