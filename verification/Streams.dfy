/**
 The objects that the protocol functions change: the reading end of a stream, a buffered
 writing end, and a message buffer of several segments.
 */
module Streams {
  import opened Wire

  /** The reading end. `pending` is what still arrives before the end of the stream, in chunks of any size. */
  class Source {
    var pending: Bytes

    constructor (bytes: Bytes)
      ensures pending == bytes
    {
      pending := bytes;
    }

    /** Some bytes, at most `max`; none only at the end of the stream. */
    method Poll(max: nat) returns (chunk: Bytes)
      requires max > 0
      modifies this
      ensures old(pending) == chunk + pending && |chunk| <= max
      ensures chunk == [] <==> old(pending) == []
    {
      if pending == [] {
        return [];
      }
      var n: nat :| 1 <= n <= |pending| && n <= max;
      chunk := pending[..n];
      pending := pending[n..];
    }
  }

  /**
   The writing end: tokio's BufWriter of some capacity, which for capacity 0 is an unbuffered
   stream. `visible` has been handed to the transport, `buffer` has not.
   */
  class Writer {
    const capacity: nat
    var visible: Bytes
    var buffer: Bytes

    constructor (capacity: nat)
      ensures Valid() && Produced() == [] && this.capacity == capacity
    {
      this.capacity := capacity;
      visible, buffer := [], [];
    }

    ghost predicate Valid()
      reads this
    {
      |buffer| <= capacity
    }

    /** Everything written so far. */
    ghost function Produced(): Bytes
      reads this
    {
      visible + buffer
    }

    /** Takes some of the chunk; a chunk that does not reach the capacity and fits is kept back. */
    method Write(chunk: Bytes) returns (n: nat)
      requires Valid() && chunk != []
      modifies this
      ensures Valid() && 0 < n <= |chunk| && Produced() == old(Produced()) + chunk[..n]
      ensures old(|buffer|) + |chunk| <= capacity && |chunk| < capacity ==>
                n == |chunk| && visible == old(visible)
      ensures old(visible) <= visible
      ensures old(|buffer|) + |chunk| > capacity ==> old(Produced()) <= visible
      ensures |chunk| < capacity ==> n == |chunk| <= |buffer|
      ensures capacity <= 1 ==> buffer == []
    {
      if |buffer| + |chunk| > capacity {
        visible, buffer := visible + buffer, [];
      }
      if |chunk| >= capacity {
        n :| 0 < n <= |chunk|;
        assert buffer == [];
        visible := visible + chunk[..n];
      } else {
        n := |chunk|;
        assert chunk[..n] == chunk;
        assert visible + buffer + chunk == visible + (buffer + chunk);
        buffer := buffer + chunk;
      }
    }

    method Flush()
      requires Valid()
      modifies this
      ensures Valid() && buffer == [] && visible == old(Produced())
    {
      visible, buffer := visible + buffer, [];
    }
  }

  function Flatten(segments: seq<Bytes>): Bytes {
    if segments == [] then [] else segments[0] + Flatten(segments[1..])
  }

  /** A message that need not be in contiguous memory (`bytes::Buf`, built with `chain`). */
  class MessageBuf {
    var segments: seq<Bytes>

    constructor (segments: seq<Bytes>)
      ensures Content() == Flatten(segments)
    {
      this.segments := segments;
    }

    ghost function Content(): Bytes
      reads this
    {
      Flatten(segments)
    }

    method Remaining() returns (n: nat)
      ensures n == |Content()|
    {
      n := 0;
      for i := 0 to |segments|
        invariant |Flatten(segments)| == n + |Flatten(segments[i..])|
      {
        n := n + |segments[i]|;
        assert segments[i..][1..] == segments[i + 1..];
      }
    }

    /** The first bytes that lie together; none only when nothing remains. */
    method Chunk() returns (chunk: Bytes)
      ensures chunk <= Content()
      ensures chunk == [] <==> Content() == []
    {
      var i := 0;
      while i < |segments| && segments[i] == []
        invariant i <= |segments| && Flatten(segments) == Flatten(segments[i..])
      {
        assert segments[i..][1..] == segments[i + 1..];
        assert Flatten(segments[i..]) == [] + Flatten(segments[i + 1..]);
        i := i + 1;
      }
      chunk := if i < |segments| then segments[i] else [];
    }

    method Advance(count: nat)
      requires count <= |Content()|
      modifies this
      ensures Content() == old(Content())[count..]
    {
      var left := count;
      ghost var all := Content();
      while left > 0
        invariant 0 <= left <= |Content()| && Content()[left..] == all[count..]
        decreases |segments|, left
      {
        var first, others := segments[0], segments[1..];
        ghost var rest := Flatten(others);
        assert Content() == first + rest;
        if |first| <= left {
          assert (first + rest)[left..] == rest[left - |first|..];
          segments, left := others, left - |first|;
        } else {
          assert (first + rest)[left..] == first[left..] + rest;
          segments := [first[left..]] + others;
          assert segments[1..] == others;
          left := 0;
        }
      }
      assert Content()[0..] == Content();
    }
  }
}
