/**
 Bytes, errors, and the incremental parsers that specify every reader.

 A parser says what a reader does with the bytes that have arrived: it has finished
 with a value, it needs more, or it has failed, and in the last two finished cases
 which bytes it has left unread.
 */
module Wire {
  import opened Wrappers

  newtype byte = x: int | 0 <= x < 256

  type Bytes = seq<byte>

  /** One more than the largest `usize` of a 64-bit target. */
  const USIZE_LIMIT: nat := 0x1_0000_0000_0000_0000

  datatype Variant = Raw | Compression | Encryption | CompressEncryption

  datatype IoKind = UnexpectedEof | InvalidData

  /**
   The union of PacketError and StarterError, which share the I/O variant.
   `Panicked` stands for an `unwrap` of a failed result.
   */
  datatype Error =
    | TooLarge(len: nat, limit: nat)
    | IO(kind: IoKind)
    | AES
    | Broken
    | InvalidStream
    | InvalidProtocol(received: Variant)
    | InvalidIdentifier(identifier: Bytes)
    | InvalidVersion(version: Bytes)
    | RSA
    | Panicked

  datatype Parsed<+T> =
    | Done(value: T, rest: Bytes)
    | More
    | Bad(error: Error, rest: Bytes)
  {
    /** The same verdict when `t` follows the input. */
    function Extend(t: Bytes): Parsed<T> {
      match this
      case Done(v, rest) => Done(v, rest + t)
      case More => More
      case Bad(e, rest) => Bad(e, rest + t)
    }
  }

  type Parser<!T> = Bytes -> Parsed<T>

  /**
   The law of a reader that looks at one byte after the other: what it leaves is the end
   of its input, a verdict does not depend on bytes after those it took, and it takes no
   byte that it does not need.
   */
  ghost predicate Incremental<T>(p: Parser<T>) {
    && (forall s :: !p(s).More? ==> |p(s).rest| <= |s| && p(s).rest == s[|s| - |p(s).rest|..])
    && (forall s, t :: !p(s).More? ==> p(s + t) == p(s).Extend(t))
    && (forall s, b :: p(s).More? && !p(s + [b]).More? ==> p(s + [b]).rest == [])
  }

  /** A reader's result once its stream has ended, if not before. */
  function Concluded<T>(p: Parsed<T>): Result<T, Error> {
    match p
    case Done(v, _) => Ok(v)
    case More => Err(IO(UnexpectedEof))
    case Bad(e, _) => Err(e)
  }

  /** What such a reader leaves behind: at the end of the stream it has taken everything. */
  function Leftover<T>(p: Parsed<T>): Bytes {
    if p.More? then [] else p.rest
  }

  function Pure<T>(v: T): Parser<T> {
    s => Done(v, s)
  }

  function Fail<T>(e: Error): Parser<T> {
    s => Bad(e, s)
  }

  /** Exactly `n` bytes: `read_more` on a buffer of that length. */
  function Exact(n: nat): Parser<Bytes> {
    s => if n <= |s| then Done(s[..n], s[n..]) else More
  }

  function Bind<A, B>(p: Parser<A>, k: A -> Parser<B>): Parser<B> {
    s =>
      match p(s)
      case Done(v, rest) => k(v)(rest)
      case More => More
      case Bad(e, rest) => Bad(e, rest)
  }

  lemma BindDone<A, B>(p: Parser<A>, k: A -> Parser<B>, s: Bytes, v: A, rest: Bytes)
    requires p(s) == Done(v, rest)
    ensures Bind(p, k)(s) == k(v)(rest)
  {
  }

  lemma PureIncremental<T>(v: T)
    ensures Incremental(Pure(v))
  {
  }

  lemma FailIncremental<T>(e: Error)
    ensures Incremental(Fail<T>(e))
  {
  }

  lemma ExactIncremental(n: nat)
    ensures Incremental(Exact(n))
  {
    var p := Exact(n);
    forall s, t | !p(s).More?
      ensures p(s + t) == p(s).Extend(t)
    {
      assert (s + t)[..n] == s[..n];
      assert (s + t)[n..] == s[n..] + t;
    }
  }

  /** One parser after the other is again a parser that takes no byte too many. */
  lemma BindIncremental<A(!new), B>(p: Parser<A>, k: A -> Parser<B>)
    requires Incremental(p)
    requires forall v :: Incremental(k(v))
    ensures Incremental(Bind(p, k))
  {
    var q := Bind(p, k);
    forall s, t | !q(s).More?
      ensures q(s + t) == q(s).Extend(t)
    {
      assert p(s + t) == p(s).Extend(t);
      if p(s).Done? {
        var v, rest := p(s).value, p(s).rest;
        assert Incremental(k(v));
        assert k(v)(rest + t) == k(v)(rest).Extend(t);
      }
    }
    forall s | !q(s).More?
      ensures |q(s).rest| <= |s| && q(s).rest == s[|s| - |q(s).rest|..]
    {
      if p(s).Done? {
        var v, rest := p(s).value, p(s).rest;
        assert Incremental(k(v));
        assert !k(v)(rest).More?;
      }
    }
    forall s, b | q(s).More? && !q(s + [b]).More?
      ensures q(s + [b]).rest == []
    {
      if p(s).More? {
        if p(s + [b]).Done? {
          var v := p(s + [b]).value;
          assert p(s + [b]).rest == [];
          assert Incremental(k(v));
          assert !k(v)([]).More?;
        }
      } else {
        var v, rest := p(s).value, p(s).rest;
        assert p(s + [b]) == p(s).Extend([b]);
        assert Incremental(k(v));
        assert k(v)(rest + [b]).rest == [];
      }
    }
  }

  /**
   Exact consumption: the bytes a finished reader took are enough for the same verdict,
   and no shorter prefix of the input gives any verdict at all.
   */
  lemma {:induction false} ExactConsumption<T>(p: Parser<T>, s: Bytes, k: nat)
    requires Incremental(p) && !p(s).More? && k <= |s|
    ensures p(s[..k]).More? <==> k < |s| - |p(s).rest|
    ensures k == |s| - |p(s).rest| ==> p(s[..k]).Extend(s[k..]) == p(s)
  {
    assert s[..k] + s[k..] == s;
    if !p(s[..k]).More? {
      assert p(s) == p(s[..k]).Extend(s[k..]);
    } else {
      var j := FirstVerdict(p, s, k);
      assert s[..j + 1] == s[..j] + [s[j]];
      assert s[..j + 1] + s[j + 1..] == s;
      assert p(s) == p(s[..j + 1]).Extend(s[j + 1..]);
    }
  }

  /** At the length where the verdict falls it is the verdict on the whole input, and what follows is what is left. */
  lemma VerdictAt<T>(p: Parser<T>, s: Bytes, k: nat)
    requires Incremental(p) && !p(s).More? && k == |s| - |p(s).rest|
    ensures s[k..] == p(s).rest
    ensures Concluded(p(s[..k])) == Concluded(p(s)) && (p(s[..k]).Bad? <==> p(s).Bad?)
  {
    ExactConsumption(p, s, k);
  }

  /** The last length at or after `k` at which the reader still waits. */
  lemma {:induction false} FirstVerdict<T>(p: Parser<T>, s: Bytes, k: nat) returns (j: nat)
    requires Incremental(p) && !p(s).More? && k <= |s| && p(s[..k]).More?
    ensures k <= j < |s| && p(s[..j]).More? && !p(s[..j + 1]).More?
    decreases |s| - k
  {
    assert s[..|s|] == s;
    if p(s[..k + 1]).More? {
      j := FirstVerdict(p, s, k + 1);
    } else {
      j := k;
    }
  }
}
