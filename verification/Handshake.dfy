/**
 The handshake as bytes: what each side writes, and, as parsers, what each side reads and
 decides. The client writes the head and reads the state; the server reads the head, checks
 it field by field, and answers. Strings are the bytes of their UTF-8 form.
 */
module Handshake {
  import opened Wrappers
  import opened Wire
  import opened LengthCodes
  import opened Framing

  const MAGIC_BYTES: Bytes := [208, 8, 166, 104]
  const MAGIC_VERSION: nat := 1

  /** What the client presents. */
  datatype Hello = Hello(variant: Variant, identifier: Bytes, version: Bytes)

  /** What the server expects, and the version it recommends to clients it turns down. */
  datatype Policy = Policy(variant: Variant, identifier: Bytes, accepts: Bytes -> bool, version: Bytes)

  /** What the server learns of an accepted client: the protocol version and the application version. */
  datatype Versions = Versions(protocol: nat, application: Bytes)

  function VariantOf(b: (bool, bool)): Variant {
    match b
    case (false, false) => Raw
    case (false, true) => Compression
    case (true, false) => Encryption
    case (true, true) => CompressEncryption
  }

  function BoolsOf(v: Variant): (bool, bool) {
    match v
    case Raw => (false, false)
    case Compression => (false, true)
    case Encryption => (true, false)
    case CompressEncryption => (true, true)
  }

  /** The two conversions of `ProtocolVariant` are inverse; the first bool says encryption, the second compression. */
  lemma VariantConversions(v: Variant, b: (bool, bool))
    ensures VariantOf(BoolsOf(v)) == v && BoolsOf(VariantOf(b)) == b
    ensures VariantOf((false, false)) == Raw && VariantOf((false, true)) == Compression
    ensures VariantOf((true, false)) == Encryption && VariantOf((true, true)) == CompressEncryption
  {
  }

  // Fields

  function BoolPairByte(b: (bool, bool)): byte {
    (if b.0 then 1 else 0) + (if b.1 then 2 else 0)
  }

  function BoolPair(): Parser<(bool, bool)> {
    s =>
      if s == [] then More
      else if s[0] >= 4 then Bad(IO(InvalidData), s[1..])
      else Done((s[0] % 2 == 1, s[0] >= 2), s[1..])
  }

  function U16Bytes(n: nat): Bytes
    requires n < 0x10000
  {
    [(n / 256) as byte, (n % 256) as byte]
  }

  function U16(): Parser<nat> {
    s => if |s| < 2 then More else Done(s[0] as nat * 256 + s[1] as nat, s[2..])
  }

  lemma BoolPairRoundTrip(b: (bool, bool), t: Bytes)
    ensures BoolPair()([BoolPairByte(b)] + t) == Done(b, t)
  {
    assert ([BoolPairByte(b)] + t)[1..] == t;
  }

  lemma BoolPairIncremental()
    ensures Incremental(BoolPair())
  {
    forall s, t: Bytes | s != []
      ensures (s + t)[1..] == s[1..] + t
    {
    }
  }

  lemma U16Incremental()
    ensures Incremental(U16())
  {
    var p := U16();
    forall s, t | !p(s).More?
      ensures p(s + t) == p(s).Extend(t)
    {
      assert (s + t)[0] == s[0] && (s + t)[1] == s[1];
      assert (s + t)[2..] == s[2..] + t;
    }
    forall s | !p(s).More?
      ensures |p(s).rest| <= |s| && p(s).rest == s[|s| - |p(s).rest|..]
    {
    }
    forall s, b | p(s).More? && !p(s + [b]).More?
      ensures p(s + [b]).rest == []
    {
      assert |s + [b]| == 2;
    }
  }

  // The head

  function Head(code: LengthCode, h: Hello): Bytes {
    MAGIC_BYTES + U16Bytes(MAGIC_VERSION) + [BoolPairByte(BoolsOf(h.variant))] +
    Prefixed(code, h.identifier) + Prefixed(code, h.version)
  }

  /** `read_head`: each check is made as soon as its field is read, and a failing one leaves the rest unread. */
  function HeadParser(code: LengthCode, p: Policy): Parser<Versions> {
    Bind(Exact(4), AfterMagic(code, p))
  }

  function AfterMagic(code: LengthCode, p: Policy): Bytes -> Parser<Versions> {
    magic => if magic != MAGIC_BYTES then Fail(InvalidStream) else Bind(U16(), AfterVersion(code, p))
  }

  function CheckVersion(code: LengthCode, p: Policy, v: nat): Parser<Versions> {
    if v != MAGIC_VERSION then Fail(InvalidStream) else Bind(BoolPair(), AfterProtocol(code, p, v))
  }

  function AfterVersion(code: LengthCode, p: Policy): nat -> Parser<Versions> {
    (v: nat) => CheckVersion(code, p, v)
  }

  function AfterProtocol(code: LengthCode, p: Policy, v: nat): ((bool, bool)) -> Parser<Versions> {
    b => if VariantOf(b) != p.variant then Fail(InvalidProtocol(VariantOf(b)))
         else Bind(PrefixedParser(code), AfterIdentifier(code, p, v))
  }

  function AfterIdentifier(code: LengthCode, p: Policy, v: nat): Bytes -> Parser<Versions> {
    i => if i != p.identifier then Fail(InvalidIdentifier(i))
         else Bind(PrefixedParser(code), AfterApplicationVersion(p, v))
  }

  function CheckApplicationVersion(p: Policy, v: nat, w: Bytes): Parser<Versions> {
    if !p.accepts(w) then Fail(InvalidVersion(w)) else Pure(Versions(v, w))
  }

  function AfterApplicationVersion(p: Policy, v: nat): Bytes -> Parser<Versions> {
    w => CheckApplicationVersion(p, v, w)
  }

  lemma HeadIncremental(code: LengthCode, p: Policy)
    requires code.Lawful()
    ensures Incremental(HeadParser(code, p))
  {
    forall m: Bytes
      ensures Incremental(AfterMagic(code, p)(m))
    {
      FailIncremental<Versions>(InvalidStream);
      AfterMagicIncremental(code, p);
    }
    ExactIncremental(4);
    BindIncremental(Exact(4), AfterMagic(code, p));
  }

  lemma AfterMagicIncremental(code: LengthCode, p: Policy)
    requires code.Lawful()
    ensures Incremental(Bind(U16(), AfterVersion(code, p)))
  {
    forall v: nat
      ensures Incremental(AfterVersion(code, p)(v))
    {
      FailIncremental<Versions>(InvalidStream);
      AfterVersionIncremental(code, p, v);
    }
    U16Incremental();
    BindIncremental(U16(), AfterVersion(code, p));
  }

  lemma AfterVersionIncremental(code: LengthCode, p: Policy, v: nat)
    requires code.Lawful()
    ensures Incremental(Bind(BoolPair(), AfterProtocol(code, p, v)))
  {
    forall b: (bool, bool)
      ensures Incremental(AfterProtocol(code, p, v)(b))
    {
      FailIncremental<Versions>(InvalidProtocol(VariantOf(b)));
      AfterProtocolIncremental(code, p, v);
    }
    BoolPairIncremental();
    BindIncremental(BoolPair(), AfterProtocol(code, p, v));
  }

  lemma AfterProtocolIncremental(code: LengthCode, p: Policy, v: nat)
    requires code.Lawful()
    ensures Incremental(Bind(PrefixedParser(code), AfterIdentifier(code, p, v)))
  {
    forall i: Bytes
      ensures Incremental(AfterIdentifier(code, p, v)(i))
    {
      FailIncremental<Versions>(InvalidIdentifier(i));
      AfterIdentifierIncremental(code, p, v);
    }
    PrefixedIncremental(code);
    BindIncremental(PrefixedParser(code), AfterIdentifier(code, p, v));
  }

  lemma AfterIdentifierIncremental(code: LengthCode, p: Policy, v: nat)
    requires code.Lawful()
    ensures Incremental(Bind(PrefixedParser(code), AfterApplicationVersion(p, v)))
  {
    forall w: Bytes
      ensures Incremental(AfterApplicationVersion(p, v)(w))
    {
      FailIncremental<Versions>(InvalidVersion(w));
      PureIncremental(Versions(v, w));
    }
    PrefixedIncremental(code);
    BindIncremental(PrefixedParser(code), AfterApplicationVersion(p, v));
  }

  // The answer

  /** `write_last`: the state and, for a failed check, the server's own value of that field. */
  function Reply<T>(code: LengthCode, p: Policy, last: Result<T, Error>): Bytes {
    match last
    case Ok(_) => [BoolPairByte((true, true))]
    case Err(InvalidProtocol(_)) => [BoolPairByte((false, false))] + [BoolPairByte(BoolsOf(p.variant))]
    case Err(InvalidIdentifier(_)) => [BoolPairByte((false, true))] + Prefixed(code, p.identifier)
    case Err(InvalidVersion(_)) => [BoolPairByte((true, false))] + Prefixed(code, p.version)
    case Err(_) => []
  }

  /** `read_last` of a client whose own writes succeeded. */
  function ReplyParser(code: LengthCode): Parser<()> {
    Bind(BoolPair(), AfterState(code))
  }

  function AfterState(code: LengthCode): ((bool, bool)) -> Parser<()> {
    (b: (bool, bool)) =>
      match b
      case (true, true) => Pure(())
      case (false, false) => Bind(BoolPair(), TheirProtocol)
      case (false, true) => Bind(PrefixedParser(code), TheirIdentifier)
      case (true, false) => Bind(PrefixedParser(code), TheirVersion)
  }

  function TheirProtocol(b: (bool, bool)): Parser<()> {
    Fail(InvalidProtocol(VariantOf(b)))
  }

  function TheirIdentifier(i: Bytes): Parser<()> {
    Fail(InvalidIdentifier(i))
  }

  function TheirVersion(v: Bytes): Parser<()> {
    Fail(InvalidVersion(v))
  }

  lemma ReplyIncremental(code: LengthCode)
    requires code.Lawful()
    ensures Incremental(ReplyParser(code))
  {
    forall b: (bool, bool)
      ensures Incremental(AfterState(code)(b))
    {
      AfterStateIncremental(code, b);
    }
    BoolPairIncremental();
    BindIncremental(BoolPair(), AfterState(code));
  }

  lemma AfterStateIncremental(code: LengthCode, b: (bool, bool))
    requires code.Lawful()
    ensures Incremental(AfterState(code)(b))
  {
    match b
    case (true, true) => PureIncremental(());
    case (false, false) => TheirProtocolIncremental();
    case (false, true) => TheirIdentifierIncremental(code);
    case (true, false) => TheirVersionIncremental(code);
  }

  lemma TheirProtocolIncremental()
    ensures Incremental(Bind(BoolPair(), TheirProtocol))
  {
    forall b: (bool, bool)
      ensures Incremental(TheirProtocol(b))
    {
      FailIncremental<()>(InvalidProtocol(VariantOf(b)));
    }
    BoolPairIncremental();
    BindIncremental(BoolPair(), TheirProtocol);
  }

  lemma TheirIdentifierIncremental(code: LengthCode)
    requires code.Lawful()
    ensures Incremental(Bind(PrefixedParser(code), TheirIdentifier))
  {
    forall i: Bytes
      ensures Incremental(TheirIdentifier(i))
    {
      FailIncremental<()>(InvalidIdentifier(i));
    }
    PrefixedIncremental(code);
    BindIncremental(PrefixedParser(code), TheirIdentifier);
  }

  lemma TheirVersionIncremental(code: LengthCode)
    requires code.Lawful()
    ensures Incremental(Bind(PrefixedParser(code), TheirVersion))
  {
    forall v: Bytes
      ensures Incremental(TheirVersion(v))
    {
      FailIncremental<()>(InvalidVersion(v));
    }
    PrefixedIncremental(code);
    BindIncremental(PrefixedParser(code), TheirVersion);
  }

  /** The lengths of strings are `usize`s. */
  predicate Sized(h: Hello, p: Policy) {
    |h.identifier| < USIZE_LIMIT && |h.version| < USIZE_LIMIT && PolicySized(p)
  }

  predicate PolicySized(p: Policy) {
    |p.identifier| < USIZE_LIMIT && |p.version| < USIZE_LIMIT
  }

  predicate Accepted(h: Hello, p: Policy) {
    h.variant == p.variant && h.identifier == p.identifier && p.accepts(h.version)
  }

  /** The first check that fails, with the client's value. */
  function Verdict(h: Hello, p: Policy): Result<Versions, Error> {
    if h.variant != p.variant then Err(InvalidProtocol(h.variant))
    else if h.identifier != p.identifier then Err(InvalidIdentifier(h.identifier))
    else if !p.accepts(h.version) then Err(InvalidVersion(h.version))
    else Ok(Versions(MAGIC_VERSION, h.version))
  }

  /** The same check, with the server's value. */
  function Counterpart(h: Hello, p: Policy): Result<(), Error> {
    if h.variant != p.variant then Err(InvalidProtocol(p.variant))
    else if h.identifier != p.identifier then Err(InvalidIdentifier(p.identifier))
    else if !p.accepts(h.version) then Err(InvalidVersion(p.version))
    else Ok(())
  }

  /** The part of the head behind the first failing check. */
  function Unread(code: LengthCode, h: Hello, p: Policy): Bytes {
    if h.variant != p.variant then Prefixed(code, h.identifier) + Prefixed(code, h.version)
    else if h.identifier != p.identifier then Prefixed(code, h.version)
    else []
  }

  function Finish<T>(r: Result<T, Error>, rest: Bytes): Parsed<T> {
    match r
    case Ok(v) => Done(v, rest)
    case Err(e) => Bad(e, rest)
  }

  // One field after the other

  lemma ReadsApplicationVersion(code: LengthCode, h: Hello, p: Policy, t: Bytes)
    requires code.Lawful() && |h.version| < USIZE_LIMIT
    ensures Bind(PrefixedParser(code), AfterApplicationVersion(p, MAGIC_VERSION))(Prefixed(code, h.version) + t) ==
            if p.accepts(h.version) then Done(Versions(MAGIC_VERSION, h.version), t)
            else Bad(InvalidVersion(h.version), t)
  {
    PrefixedRoundTrip(code, h.version, t);
    BindDone(PrefixedParser(code), AfterApplicationVersion(p, MAGIC_VERSION),
             Prefixed(code, h.version) + t, h.version, t);
  }

  lemma ReadsIdentifier(code: LengthCode, h: Hello, p: Policy, t: Bytes)
    requires code.Lawful() && Sized(h, p) && h.variant == p.variant
    ensures Bind(PrefixedParser(code), AfterIdentifier(code, p, MAGIC_VERSION))
              (Prefixed(code, h.identifier) + (Prefixed(code, h.version) + t)) ==
            Finish(Verdict(h, p), Unread(code, h, p) + t)
  {
    var rest := Prefixed(code, h.version) + t;
    PrefixedRoundTrip(code, h.identifier, rest);
    BindDone(PrefixedParser(code), AfterIdentifier(code, p, MAGIC_VERSION),
             Prefixed(code, h.identifier) + rest, h.identifier, rest);
    ReadsApplicationVersion(code, h, p, t);
    assert [] + t == t;
  }

  lemma ReadsProtocol(code: LengthCode, h: Hello, p: Policy, t: Bytes)
    requires code.Lawful() && Sized(h, p)
    ensures Bind(BoolPair(), AfterProtocol(code, p, MAGIC_VERSION))
              ([BoolPairByte(BoolsOf(h.variant))] + (Prefixed(code, h.identifier) + (Prefixed(code, h.version) + t))) ==
            Finish(Verdict(h, p), Unread(code, h, p) + t)
  {
    var rest := Prefixed(code, h.identifier) + (Prefixed(code, h.version) + t);
    BoolPairRoundTrip(BoolsOf(h.variant), rest);
    VariantConversions(h.variant, BoolsOf(h.variant));
    BindDone(BoolPair(), AfterProtocol(code, p, MAGIC_VERSION),
             [BoolPairByte(BoolsOf(h.variant))] + rest, BoolsOf(h.variant), rest);
    if h.variant == p.variant {
      ReadsIdentifier(code, h, p, t);
    } else {
      assert Prefixed(code, h.identifier) + Prefixed(code, h.version) + t == rest;
    }
  }

  lemma ReadsMagic(code: LengthCode, p: Policy, rest: Bytes)
    ensures HeadParser(code, p)(MAGIC_BYTES + (U16Bytes(MAGIC_VERSION) + rest)) ==
            Bind(BoolPair(), AfterProtocol(code, p, MAGIC_VERSION))(rest)
  {
    var s := U16Bytes(MAGIC_VERSION) + rest;
    assert (MAGIC_BYTES + s)[..4] == MAGIC_BYTES && (MAGIC_BYTES + s)[4..] == s;
    BindDone(Exact(4), AfterMagic(code, p), MAGIC_BYTES + s, MAGIC_BYTES, s);
    assert s[2..] == rest;
    BindDone(U16(), AfterVersion(code, p), s, MAGIC_VERSION, rest);
  }

  lemma HeadSplit(code: LengthCode, h: Hello, t: Bytes)
    ensures Head(code, h) + t ==
            MAGIC_BYTES + (U16Bytes(MAGIC_VERSION) + ([BoolPairByte(BoolsOf(h.variant))] +
            (Prefixed(code, h.identifier) + (Prefixed(code, h.version) + t))))
  {
    Regroup(MAGIC_BYTES, U16Bytes(MAGIC_VERSION), [BoolPairByte(BoolsOf(h.variant))],
            Prefixed(code, h.identifier), Prefixed(code, h.version), t);
  }

  /** The bytes of a head, in order. */
  lemma HeadLayout(code: LengthCode, h: Hello)
    ensures Head(code, h) ==
            [208, 8, 166, 104, 0, 1] + [BoolPairByte(BoolsOf(h.variant))] +
            (code.encode(|h.identifier|) + h.identifier) + (code.encode(|h.version|) + h.version)
  {
    assert MAGIC_BYTES + U16Bytes(MAGIC_VERSION) == [208, 8, 166, 104, 0, 1];
  }

  /** The bytes of an answer: the state tells which check failed, and the server's own value follows. */
  lemma ReplyLayout<T>(code: LengthCode, p: Policy, last: Result<T, Error>)
    ensures Reply(code, p, last) ==
            if last.Ok? then [BoolPairByte((true, true))]
            else if last.error.InvalidProtocol? then [BoolPairByte((false, false)), BoolPairByte(BoolsOf(p.variant))]
            else if last.error.InvalidIdentifier? then
              [BoolPairByte((false, true))] + (code.encode(|p.identifier|) + p.identifier)
            else if last.error.InvalidVersion? then
              [BoolPairByte((true, false))] + (code.encode(|p.version|) + p.version)
            else []
  {
  }

  lemma Regroup(a: Bytes, b: Bytes, c: Bytes, d: Bytes, e: Bytes, f: Bytes)
    ensures a + b + c + d + e + f == a + (b + (c + (d + (e + f))))
  {
  }

  /** The server on a client's head, whatever bytes follow it. */
  lemma ServerReadsHead(code: LengthCode, h: Hello, p: Policy, t: Bytes)
    requires code.Lawful() && Sized(h, p)
    ensures HeadParser(code, p)(Head(code, h) + t) == Finish(Verdict(h, p), Unread(code, h, p) + t)
  {
    var tail := Prefixed(code, h.identifier) + (Prefixed(code, h.version) + t);
    var state := [BoolPairByte(BoolsOf(h.variant))];
    HeadSplit(code, h, t);
    ReadsMagic(code, p, state + tail);
    ReadsProtocol(code, h, p, t);
  }

  lemma ReadsState(code: LengthCode, b: (bool, bool), rest: Bytes)
    ensures ReplyParser(code)([BoolPairByte(b)] + rest) == AfterState(code)(b)(rest)
  {
    BoolPairRoundTrip(b, rest);
    BindDone(BoolPair(), AfterState(code), [BoolPairByte(b)] + rest, b, rest);
  }

  lemma ReadsTheirProtocol(code: LengthCode, v: Variant, t: Bytes)
    ensures ReplyParser(code)([BoolPairByte((false, false))] + ([BoolPairByte(BoolsOf(v))] + t)) ==
            Bad(InvalidProtocol(v), t)
  {
    var rest := [BoolPairByte(BoolsOf(v))] + t;
    ReadsState(code, (false, false), rest);
    BoolPairRoundTrip(BoolsOf(v), t);
    BindDone(BoolPair(), TheirProtocol, rest, BoolsOf(v), t);
  }

  lemma ReadsTheirIdentifier(code: LengthCode, i: Bytes, t: Bytes)
    requires code.Lawful() && |i| < USIZE_LIMIT
    ensures ReplyParser(code)([BoolPairByte((false, true))] + (Prefixed(code, i) + t)) == Bad(InvalidIdentifier(i), t)
  {
    var rest := Prefixed(code, i) + t;
    ReadsState(code, (false, true), rest);
    PrefixedRoundTrip(code, i, t);
    BindDone(PrefixedParser(code), TheirIdentifier, rest, i, t);
  }

  lemma ReadsTheirVersion(code: LengthCode, v: Bytes, t: Bytes)
    requires code.Lawful() && |v| < USIZE_LIMIT
    ensures ReplyParser(code)([BoolPairByte((true, false))] + (Prefixed(code, v) + t)) == Bad(InvalidVersion(v), t)
  {
    var rest := Prefixed(code, v) + t;
    ReadsState(code, (true, false), rest);
    PrefixedRoundTrip(code, v, t);
    BindDone(PrefixedParser(code), TheirVersion, rest, v, t);
  }

  lemma Assoc(a: Bytes, b: Bytes, c: Bytes)
    ensures a + b + c == a + (b + c)
  {
  }

  /** What is written last of a string: its bytes, or its length if it has none. */
  function LastChunk(code: LengthCode, body: Bytes): Bytes {
    if body == [] then code.encode(0) else body
  }

  /** What is written last of the answer to `e`. */
  function LastField(code: LengthCode, p: Policy, e: Error): Bytes
    requires Answered(e)
  {
    match e
    case InvalidProtocol(_) => [BoolPairByte(BoolsOf(p.variant))]
    case InvalidIdentifier(_) => LastChunk(code, p.identifier)
    case InvalidVersion(_) => LastChunk(code, p.version)
  }

  /** The errors that are answered with a reason. */
  predicate Answered(e: Error) {
    e.InvalidProtocol? || e.InvalidIdentifier? || e.InvalidVersion?
  }

  /** The reason that the answer gives: the same check with the server's own value. */
  function Stated(p: Policy, e: Error): Error
    requires Answered(e)
  {
    match e
    case InvalidProtocol(_) => InvalidProtocol(p.variant)
    case InvalidIdentifier(_) => InvalidIdentifier(p.identifier)
    case InvalidVersion(_) => InvalidVersion(p.version)
  }

  lemma ReadsRejection<T>(code: LengthCode, p: Policy, last: Result<T, Error>, t: Bytes)
    requires code.Lawful() && PolicySized(p) && last.Err? && Answered(last.error)
    ensures ReplyParser(code)(Reply(code, p, last) + t) == Bad(Stated(p, last.error), t)
  {
    match last.error
    case InvalidProtocol(_) =>
      Assoc([BoolPairByte((false, false))], [BoolPairByte(BoolsOf(p.variant))], t);
      ReadsTheirProtocol(code, p.variant, t);
    case InvalidIdentifier(_) =>
      Assoc([BoolPairByte((false, true))], Prefixed(code, p.identifier), t);
      ReadsTheirIdentifier(code, p.identifier, t);
    case InvalidVersion(_) =>
      Assoc([BoolPairByte((true, false))], Prefixed(code, p.version), t);
      ReadsTheirVersion(code, p.version, t);
  }

  /** The client on the server's answer, whatever bytes follow it. */
  lemma ClientReadsReply<T>(code: LengthCode, h: Hello, p: Policy, last: Result<T, Error>, t: Bytes)
    requires code.Lawful() && Sized(h, p)
    requires if Verdict(h, p).Ok? then last.Ok? else last == Err(Verdict(h, p).error)
    ensures ReplyParser(code)(Reply(code, p, last) + t) == Finish(Counterpart(h, p), t)
  {
    if Verdict(h, p).Ok? {
      assert last.Ok?;
      ReadsState(code, (true, true), t);
    } else {
      ReadsRejection(code, p, last, t);
    }
  }

  /**
   Agreement. Both sides give Ok iff protocols and identifiers match and the predicate holds;
   otherwise both report the same first failing check in the order protocol, identifier,
   version, each with the other side's value. On success the server has protocol version 1 and
   the client's exact version, and both have read exactly the handshake.
   */
  lemma HandshakeAgreement(code: LengthCode, h: Hello, p: Policy, afterHead: Bytes, afterReply: Bytes)
    requires code.Lawful() && Sized(h, p)
    ensures var server := HeadParser(code, p)(Head(code, h) + afterHead);
      var client := ReplyParser(code)(Reply(code, p, Concluded(server)) + afterReply);
      && (server.Done? <==> Accepted(h, p)) && (client.Done? <==> Accepted(h, p))
      && (Accepted(h, p) ==> server == Done(Versions(1, h.version), afterHead) && client == Done((), afterReply))
      && (!Accepted(h, p) ==>
            if h.variant != p.variant then
              && Concluded(server) == Err(InvalidProtocol(h.variant))
              && client == Bad(InvalidProtocol(p.variant), afterReply)
            else if h.identifier != p.identifier then
              && Concluded(server) == Err(InvalidIdentifier(h.identifier))
              && client == Bad(InvalidIdentifier(p.identifier), afterReply)
            else
              && Concluded(server) == Err(InvalidVersion(h.version))
              && client == Bad(InvalidVersion(p.version), afterReply))
  {
    ServerReadsHead(code, h, p, afterHead);
    ClientReadsReply(code, h, p, Concluded(HeadParser(code, p)(Head(code, h) + afterHead)), afterReply);
    if Accepted(h, p) {
      assert [] + afterHead == afterHead;
    }
  }

  lemma StrangeVersion(code: LengthCode, p: Policy, s: Bytes)
    requires |s| >= 2 && s[..2] != U16Bytes(MAGIC_VERSION)
    ensures Bind(U16(), AfterVersion(code, p))(s) == Bad(InvalidStream, s[2..])
  {
    var v := s[0] as nat * 256 + s[1] as nat;
    assert v != MAGIC_VERSION by {
      assert s[..2] == [s[0], s[1]];
    }
    BindDone<nat, Versions>(U16(), AfterVersion(code, p), s, v, s[2..]);
  }

  lemma StrangeMagic(code: LengthCode, p: Policy, s: Bytes)
    requires |s| >= 4
    ensures HeadParser(code, p)(s) ==
            if s[..4] != MAGIC_BYTES then Bad(InvalidStream, s[4..]) else Bind(U16(), AfterVersion(code, p))(s[4..])
  {
    BindDone(Exact(4), AfterMagic(code, p), s, s[..4], s[4..]);
  }

  /** A peer that is no client of this protocol is turned away without an answer. */
  lemma StrangerGetsNoAnswer(code: LengthCode, p: Policy, s: Bytes)
    requires |s| >= 4 && (s[..4] != [208, 8, 166, 104] || (|s| >= 6 && s[4..][..2] != [0, 1]))
    ensures Concluded(HeadParser(code, p)(s)) == Err(InvalidStream)
    ensures Reply(code, p, Concluded(HeadParser(code, p)(s))) == [] && ReplyParser(code)([]) == More
  {
    StrangeMagic(code, p, s);
    if s[..4] == MAGIC_BYTES {
      StrangeVersion(code, p, s[4..]);
    }
  }

  /** What a cut does to a reader: it waits up to its last byte, and never changes its mind. */
  lemma Truncated<T>(q: Parser<T>, s: Bytes, k: nat, r: Result<T, Error>, unread: Bytes)
    requires Incremental(q) && q(s) == Finish(r, unread) && k <= |s|
    ensures q(s[..k]).More? <==> k < |s| - |unread|
    ensures !q(s[..k]).More? ==> Concluded(q(s[..k])) == r
  {
    ExactConsumption(q, s, k);
    if !q(s[..k]).More? {
      assert s[..k] + s[k..] == s;
      assert q(s) == q(s[..k]).Extend(s[k..]);
    }
  }

  /**
   A head cut short is never accepted. If the server decides on it at all, it is the rejection
   that the whole head gets; otherwise the server waits, and fails at the end of the stream.
   */
  lemma TruncatedHead(code: LengthCode, h: Hello, p: Policy, k: nat)
    requires code.Lawful() && Sized(h, p) && k < |Head(code, h)|
    ensures var cut := HeadParser(code, p)(Head(code, h)[..k]);
      && !cut.Done?
      && (cut.Bad? ==> Concluded(cut) == Verdict(h, p))
      && (cut.More? <==> k < |Head(code, h)| - |Unread(code, h, p)|)
  {
    HeadIncremental(code, p);
    ServerReadsHead(code, h, p, []);
    assert Head(code, h) + [] == Head(code, h) && Unread(code, h, p) + [] == Unread(code, h, p);
    Truncated(HeadParser(code, p), Head(code, h), k, Verdict(h, p), Unread(code, h, p));
  }

  /** A rejection cut short is never read as one: the client learns the reason with the last byte. */
  lemma CutRejection<T>(code: LengthCode, p: Policy, last: Result<T, Error>, k: nat)
    requires code.Lawful() && PolicySized(p) && last.Err? && Answered(last.error) && k <= |Reply(code, p, last)|
    ensures var cut := ReplyParser(code)(Reply(code, p, last)[..k]);
      if k < |Reply(code, p, last)| then cut == More else Concluded(cut) == Err(Stated(p, last.error))
  {
    ReplyIncremental(code);
    ReadsRejection(code, p, last, []);
    assert Reply(code, p, last) + [] == Reply(code, p, last);
    Truncated(ReplyParser(code), Reply(code, p, last), k, Err(Stated(p, last.error)), []);
  }

  /** What a client learns of the rejection `e`: the reason if all of it has come, else the end of the stream. */
  function Learnt(p: Policy, e: Error, whole: bool): Error {
    if whole && Answered(e) then Stated(p, e) else IO(UnexpectedEof)
  }

  /**
   What a client learns of a reason, by the capacity of the server's writer: all of it if the writer
   holds nothing back, and never if it holds the whole last field back, whether the answer fits or
   not. For a wrong protocol this decides every case.
   */
  predicate ReasonFate(code: LengthCode, p: Policy, e: Error, capacity: nat, learnt: Error)
    requires Answered(e)
  {
    && (capacity <= 1 ==> learnt == Stated(p, e))
    && (|LastField(code, p, e)| < capacity ==> learnt == IO(UnexpectedEof))
    && (e.InvalidProtocol? ==> learnt == if capacity <= 1 then Stated(p, e) else IO(UnexpectedEof))
  }

  /** A writer whose buffer ends with the last field, or holds nothing back. */
  lemma FateDecided(code: LengthCode, p: Policy, e: Error, capacity: nat, buffer: Bytes)
    requires code.Lawful() && Answered(e)
    requires |LastField(code, p, e)| < capacity ==> |LastField(code, p, e)| <= |buffer|
    requires capacity <= 1 && LastField(code, p, e) != [] ==> buffer == []
    ensures ReasonFate(code, p, e, capacity, Learnt(p, e, buffer == []))
  {
    LengthThen(code, 0, []);
  }

  lemma WhatIsLearnt<T>(code: LengthCode, p: Policy, last: Result<T, Error>, visible: Bytes, hidden: Bytes)
    requires code.Lawful() && PolicySized(p) && last.Err? && visible + hidden == Reply(code, p, last)
    ensures Concluded(ReplyParser(code)(visible)) == Err(Learnt(p, last.error, hidden == []))
    ensures !ReplyParser(code)(visible).Done?
  {
    if Answered(last.error) {
      assert visible == Reply(code, p, last)[..|visible|];
      CutRejection(code, p, last, |visible|);
    } else {
      assert visible == [];
    }
  }

  /** Different clients never write the same head. */
  lemma HeadInjective(code: LengthCode, a: Hello, b: Hello)
    requires code.Lawful() && Head(code, a) == Head(code, b)
    requires |a.identifier| < USIZE_LIMIT && |a.version| < USIZE_LIMIT
    requires |b.identifier| < USIZE_LIMIT && |b.version| < USIZE_LIMIT
    ensures a == b
  {
    var p := Policy(a.variant, a.identifier, v => true, a.version);
    ServerReadsHead(code, a, p, []);
    ServerReadsHead(code, b, p, []);
  }
}
