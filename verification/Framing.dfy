/**
 Packets on a byte stream: the length, then the body, under a size limit
 (`write_packet` and `read_packet`), and the length-prefixed strings and byte vectors
 of the handshake.
 */
module Framing {
  import opened Wire
  import opened LengthCodes

  /** A length and that many bytes: the form of a packet, a string and a byte vector. */
  function Prefixed(code: LengthCode, body: Bytes): Bytes {
    code.encode(|body|) + body
  }

  function PrefixedParser(code: LengthCode): Parser<Bytes> {
    Bind(code.decode, Exact)
  }

  /** What is done once a packet's length is known: the limit is checked before any of the body is read. */
  function BodyParser(limit: nat): nat -> Parser<Bytes> {
    (len: nat) => if len > limit then Fail(TooLarge(len, limit)) else Exact(len)
  }

  function PacketParser(code: LengthCode, limit: nat): Parser<Bytes> {
    Bind(code.decode, BodyParser(limit))
  }

  /** The packets one after the other. */
  function Frames(code: LengthCode, bodies: seq<Bytes>): Bytes {
    if bodies == [] then [] else Prefixed(code, bodies[0]) + Frames(code, bodies[1..])
  }

  function Prepend(first: Bytes, others: Parsed<seq<Bytes>>): Parsed<seq<Bytes>> {
    match others
    case Done(bodies, rest) => Done([first] + bodies, rest)
    case _ => others
  }

  /** `count` calls of `read_packet`, one after the other. */
  function ReadPackets(code: LengthCode, limit: nat, count: nat, s: Bytes): Parsed<seq<Bytes>> {
    if count == 0 then Done([], s)
    else
      match PacketParser(code, limit)(s)
      case Done(first, rest) => Prepend(first, ReadPackets(code, limit, count - 1, rest))
      case More => More
      case Bad(e, rest) => Bad(e, rest)
  }

  ghost predicate AllWithin(bodies: seq<Bytes>, limit: nat) {
    forall i :: 0 <= i < |bodies| ==> |bodies[i]| <= limit
  }

  lemma PrefixedIncremental(code: LengthCode)
    requires code.Lawful()
    ensures Incremental(PrefixedParser(code))
  {
    forall n: nat
      ensures Incremental(Exact(n))
    {
      ExactIncremental(n);
    }
    BindIncremental(code.decode, Exact);
  }

  lemma PacketIncremental(code: LengthCode, limit: nat)
    requires code.Lawful()
    ensures Incremental(PacketParser(code, limit))
  {
    forall n: nat
      ensures Incremental(BodyParser(limit)(n))
    {
      ExactIncremental(n);
      FailIncremental<Bytes>(TooLarge(n, limit));
    }
    BindIncremental(code.decode, BodyParser(limit));
  }

  /** A length code read in front of anything. */
  lemma LengthThen(code: LengthCode, n: nat, t: Bytes)
    requires code.Lawful() && n < USIZE_LIMIT
    ensures code.decode(code.encode(n) + t) == Done(n, t)
    ensures code.encode(n) != []
  {
    assert code.decode(code.encode(n)) == Done(n, []);
    assert code.decode(code.encode(n) + t) == Done(n, [] + t);
    assert [] + t == t;
  }

  lemma PrefixedRoundTrip(code: LengthCode, body: Bytes, t: Bytes)
    requires code.Lawful() && |body| < USIZE_LIMIT
    ensures PrefixedParser(code)(Prefixed(code, body) + t) == Done(body, t)
  {
    assert Prefixed(code, body) + t == code.encode(|body|) + (body + t);
    LengthThen(code, |body|, body + t);
    assert (body + t)[..|body|] == body;
    assert (body + t)[|body|..] == t;
  }

  /**
   One packet: within the reader's limit it comes back exactly and the following bytes stay;
   above it the reader reports the length, having taken the length field only.
   */
  lemma PacketRoundTrip(code: LengthCode, limit: nat, body: Bytes, t: Bytes)
    requires code.Lawful() && |body| < USIZE_LIMIT
    ensures PacketParser(code, limit)(Prefixed(code, body) + t) ==
            if |body| <= limit then Done(body, t) else Bad(TooLarge(|body|, limit), body + t)
  {
    assert Prefixed(code, body) + t == code.encode(|body|) + (body + t);
    LengthThen(code, |body|, body + t);
    assert (body + t)[..|body|] == body;
    assert (body + t)[|body|..] == t;
  }

  /** A packet read in front of others. */
  lemma ReadsFirst(code: LengthCode, limit: nat, body: Bytes, count: nat, s: Bytes, bodies: seq<Bytes>, rest: Bytes)
    requires code.Lawful() && |body| <= limit < USIZE_LIMIT
    requires ReadPackets(code, limit, count, s) == Done(bodies, rest)
    ensures ReadPackets(code, limit, count + 1, Prefixed(code, body) + s) == Done([body] + bodies, rest)
  {
    PacketRoundTrip(code, limit, body, s);
  }

  lemma Grouped(a: Bytes, b: Bytes, c: Bytes)
    ensures a + b + c == a + (b + c)
  {
  }

  lemma TakeCons<T>(s: seq<T>, n: nat)
    requires n < |s|
    ensures [s[0]] + s[1..][..n] == s[..n + 1]
    ensures [s[0]] + s[1..] == s
  {
  }

  lemma FramesSplit(code: LengthCode, bodies: seq<Bytes>, t: Bytes)
    requires bodies != []
    ensures Frames(code, bodies) + t == Prefixed(code, bodies[0]) + (Frames(code, bodies[1..]) + t)
  {
    Grouped(Prefixed(code, bodies[0]), Frames(code, bodies[1..]), t);
  }

  /** Any number of packets: the reads return exactly the bodies written and leave what follows. */
  lemma {:induction false} FramesRoundTrip(code: LengthCode, limit: nat, bodies: seq<Bytes>, t: Bytes)
    requires code.Lawful() && limit < USIZE_LIMIT && AllWithin(bodies, limit)
    ensures ReadPackets(code, limit, |bodies|, Frames(code, bodies) + t) == Done(bodies, t)
  {
    if bodies == [] {
      assert Frames(code, bodies) + t == t;
    } else {
      assert |bodies[0]| <= limit;
      var others, rest := bodies[1..], Frames(code, bodies[1..]) + t;
      FramesRoundTrip(code, limit, others, t);
      FramesSplit(code, bodies, t);
      ReadsFirst(code, limit, bodies[0], |others|, rest, others, t);
      TakeCons(bodies, 0);
    }
  }

  lemma {:induction false} FramesConcat(code: LengthCode, a: seq<Bytes>, b: seq<Bytes>)
    ensures Frames(code, a + b) == Frames(code, a) + Frames(code, b)
  {
    if a == [] {
      assert a + b == b;
    } else {
      assert (a + b)[1..] == a[1..] + b;
      FramesConcat(code, a[1..], b);
    }
  }

  lemma FramesNonEmpty(code: LengthCode, bodies: seq<Bytes>)
    requires code.Lawful() && bodies != [] && |bodies[0]| < USIZE_LIMIT
    ensures Frames(code, bodies) != []
  {
    LengthThen(code, |bodies[0]|, []);
  }

  lemma FirstOfFrames(code: LengthCode, limit: nat, a: seq<Bytes>, b: seq<Bytes>)
    requires code.Lawful() && limit < USIZE_LIMIT && a != [] && b != [] && |a[0]| <= limit && |b[0]| <= limit
    requires Frames(code, a) == Frames(code, b)
    ensures a[0] == b[0] && Frames(code, a[1..]) == Frames(code, b[1..])
  {
    PacketRoundTrip(code, limit, a[0], Frames(code, a[1..]));
    PacketRoundTrip(code, limit, b[0], Frames(code, b[1..]));
  }

  /** Different message lists never have the same encoding. */
  lemma {:induction false} FramesInjective(code: LengthCode, limit: nat, a: seq<Bytes>, b: seq<Bytes>)
    requires code.Lawful() && limit < USIZE_LIMIT && AllWithin(a, limit) && AllWithin(b, limit)
    requires Frames(code, a) == Frames(code, b)
    ensures a == b
  {
    if a == [] || b == [] {
      if a != b {
        FramesNonEmpty(code, if a == [] then b else a);
        assert false;
      }
    } else {
      assert |a[0]| <= limit && |b[0]| <= limit;
      FirstOfFrames(code, limit, a, b);
      FramesInjective(code, limit, a[1..], b[1..]);
      TakeCons(a, 0);
      TakeCons(b, 0);
    }
  }

  /** A packet cut short is never read as a packet: the reader waits, and at the end of the stream it fails. */
  lemma PacketPrefixFree(code: LengthCode, limit: nat, body: Bytes, k: nat)
    requires code.Lawful() && |body| <= limit < USIZE_LIMIT && k < |Prefixed(code, body)|
    ensures PacketParser(code, limit)(Prefixed(code, body)[..k]) == More
  {
    var p, s := PacketParser(code, limit), Prefixed(code, body);
    PacketIncremental(code, limit);
    PacketRoundTrip(code, limit, body, []);
    assert s + [] == s;
    ExactConsumption(p, s, k);
  }

  /** `s` is `n` whole packets and a proper prefix of the next. */
  predicate CutBehind(code: LengthCode, bodies: seq<Bytes>, n: nat, s: Bytes) {
    && n < |bodies|
    && if n == 0 then s < Prefixed(code, bodies[0])
       else
         && Prefixed(code, bodies[0]) <= s
         && CutBehind(code, bodies[1..], n - 1, s[|Prefixed(code, bodies[0])|..])
  }

  /** How many packets lie within the first `k` bytes. */
  function Arrived(code: LengthCode, bodies: seq<Bytes>, k: nat): nat {
    if bodies == [] || k < |Prefixed(code, bodies[0])| then 0
    else 1 + Arrived(code, bodies[1..], k - |Prefixed(code, bodies[0])|)
  }

  lemma Cut(a: Bytes, b: Bytes, k: nat)
    requires k < |a + b|
    ensures if k < |a| then (a + b)[..k] < a
            else a <= (a + b)[..k] && (a + b)[..k][|a|..] == b[..k - |a|] && k - |a| < |b|
  {
  }

  lemma {:induction false} FramesCut(code: LengthCode, bodies: seq<Bytes>, k: nat)
    requires k < |Frames(code, bodies)|
    ensures CutBehind(code, bodies, Arrived(code, bodies, k), Frames(code, bodies)[..k])
  {
    var first := Prefixed(code, bodies[0]);
    Cut(first, Frames(code, bodies[1..]), k);
    if k >= |first| {
      FramesCut(code, bodies[1..], k - |first|);
    }
  }

  /** The reads of `s` give the first `n` bodies, and the next one waits. */
  predicate ReadsThenWaits(code: LengthCode, limit: nat, bodies: seq<Bytes>, n: nat, s: Bytes) {
    var r := ReadPackets(code, limit, n, s);
    n <= |bodies| && r.Done? && r.value == bodies[..n] && PacketParser(code, limit)(r.rest).More?
  }

  lemma OneMoreRead(code: LengthCode, limit: nat, bodies: seq<Bytes>, n: nat, s: Bytes)
    requires code.Lawful() && limit < USIZE_LIMIT && bodies != [] && |bodies[0]| <= limit
    requires ReadsThenWaits(code, limit, bodies[1..], n, s)
    ensures ReadsThenWaits(code, limit, bodies, n + 1, Prefixed(code, bodies[0]) + s)
  {
    ReadsFirst(code, limit, bodies[0], n, s, bodies[1..][..n], ReadPackets(code, limit, n, s).rest);
    TakeCons(bodies, n);
  }

  lemma Rejoin(a: Bytes, s: Bytes)
    requires a <= s
    ensures a + s[|a|..] == s
  {
  }

  lemma OneMoreOf(code: LengthCode, limit: nat, bodies: seq<Bytes>, n: nat, s: Bytes)
    requires code.Lawful() && limit < USIZE_LIMIT && bodies != [] && |bodies[0]| <= limit
    requires Prefixed(code, bodies[0]) <= s
    requires ReadsThenWaits(code, limit, bodies[1..], n, s[|Prefixed(code, bodies[0])|..])
    ensures ReadsThenWaits(code, limit, bodies, n + 1, s)
  {
    OneMoreRead(code, limit, bodies, n, s[|Prefixed(code, bodies[0])|..]);
    Rejoin(Prefixed(code, bodies[0]), s);
  }

  lemma NoReadYet(code: LengthCode, limit: nat, bodies: seq<Bytes>, s: Bytes)
    requires code.Lawful() && limit < USIZE_LIMIT && bodies != [] && |bodies[0]| <= limit
    requires s < Prefixed(code, bodies[0])
    ensures ReadsThenWaits(code, limit, bodies, 0, s)
  {
    assert s == Prefixed(code, bodies[0])[..|s|];
    PacketPrefixFree(code, limit, bodies[0], |s|);
  }

  lemma {:induction false} CutReads(code: LengthCode, limit: nat, bodies: seq<Bytes>, n: nat, s: Bytes)
    requires code.Lawful() && limit < USIZE_LIMIT && AllWithin(bodies, limit) && CutBehind(code, bodies, n, s)
    ensures ReadsThenWaits(code, limit, bodies, n, s)
    decreases n
  {
    assert |bodies[0]| <= limit;
    if n == 0 {
      NoReadYet(code, limit, bodies, s);
    } else {
      CutReads(code, limit, bodies[1..], n - 1, s[|Prefixed(code, bodies[0])|..]);
      OneMoreOf(code, limit, bodies, n - 1, s);
    }
  }

  /**
   A stream of packets cut short: the reads return the packets that have arrived, in order, and
   the next one waits, and so fails at the end of the stream.
   */
  lemma FramesCutShort(code: LengthCode, limit: nat, bodies: seq<Bytes>, k: nat)
    requires code.Lawful() && limit < USIZE_LIMIT && AllWithin(bodies, limit) && k < |Frames(code, bodies)|
    ensures Arrived(code, bodies, k) < |bodies|
    ensures ReadsThenWaits(code, limit, bodies, Arrived(code, bodies, k), Frames(code, bodies)[..k])
  {
    FramesCut(code, bodies, k);
    CutReads(code, limit, bodies, Arrived(code, bodies, k), Frames(code, bodies)[..k]);
  }
}
