/**
 A message above the size limit. The encrypting stacks replace the nonce before the size
 check, the others check first; so the same TooLarge is fatal for the former and harmless
 for the latter.
 */
module Oversize {
  import opened Wrappers
  import opened Wire
  import opened Crypto
  import opened NonceLink
  import opened NonceDeath
  import opened LinkRuns

  /** Both halves of a send, with nothing in between. */
  function SendEvents(x: Side, message: Bytes, next: Nonce): seq<Event> {
    [Seal(x, message, next), Write(x)]
  }

  /**
   With a live cell and no send under way a send gives Ok iff the message fits; this holds for
   the sender alone, whatever state its peer is in.
   */
  lemma SendOkIffFits(net: Net, l: Link, x: Side, message: Bytes, next: Nonce)
    requires l.At(x).sending.None? && (net.Encrypted() ==> l.At(x).cell.Some?)
    requires net.stack.Sealable(next, message)
    ensures Trace(net, l, SendEvents(x, message, next)) ==
            [Stepped, if net.Fits(x, next, message) then Sent(message)
                      else Failed(TooLarge(net.stack.PacketSize(next, message), net.Limit(x)))]
  {
    TwoSteps(net, l, Seal(x, message, next), Write(x));
  }

  /** For the encrypting stack without compression the bound is on the message itself. */
  lemma EncryptedBound(net: Net, x: Side, message: Bytes, next: Nonce)
    requires net.Encrypted() && net.stack.codec.None? && net.Limit(x) < USIZE_LIMIT
    ensures net.Fits(x, next, message) <==> |message| + 12 + 16 <= net.Limit(x)
    ensures net.Fits(x, next, message) ==> 12 + |message| + 12 < USIZE_LIMIT
  {
  }

  /** Raw and compress: after TooLarge the link is exactly as it was. */
  lemma OversizeIsHarmless(net: Net, l: Link, x: Side, message: Bytes, next: Nonce)
    requires !net.Encrypted() && l.At(x).sending.None? && !net.Fits(x, next, message)
    ensures Exec(net, l, SendEvents(x, message, next)) == l
  {
    TwoSteps(net, l, Seal(x, message, next), Write(x));
  }

  /**
   Encrypt and compress_encrypt: after TooLarge nothing is on the wire and the cell is live,
   but it holds a nonce that the peer is never told.
   */
  lemma OversizeLosesNonce(net: Net, l: Link, x: Side, message: Bytes, next: Nonce)
    requires net.Encrypted() && l.At(x).sending.None? && l.At(x).cell.Some?
    requires net.stack.Sealable(next, message) && !net.Fits(x, next, message)
    ensures Exec(net, l, SendEvents(x, message, next)) == l.With(x, l.At(x).(cell := Some(next)))
  {
    TwoSteps(net, l, Seal(x, message, next), Write(x));
  }

  /**
   From then on the sender's fitting sends still return Ok until it opens a packet itself, and
   yet nothing sealed after the oversize message ever arrives, on either side.
   */
  lemma OversizeIsFatal(net: Net, l: Link, x: Side, message: Bytes, next: Nonce, evs: seq<Event>, used: set<Nonce>)
    requires net.Encrypted() && Live(Look(net, l), used) && Fresh([Seal(x, message, next)] + evs, used)
    requires l.At(x).sending.None? && !net.Fits(x, next, message)
    ensures var at := Exec(net, l, [Seal(x, message, next)] + evs);
      && (forall z: Side :: at.At(z).received <= l.At(z).received + Messages(Incoming(net, l, z)))
      && (net.stack.Sealable(next, message) && SealableBy(net, evs, x) && NeverOpens(evs, x)
          && at.At(x).sending.None? ==>
            forall m, n | net.stack.Sealable(n, m) && net.Fits(x, n, m) ::
              Trace(net, at, SendEvents(x, m, n)) == [Stepped, Sent(m)])
  {
    var ev := Seal(x, message, next);
    assert ([ev] + evs)[0] == ev && ([ev] + evs)[1..] == evs;
    UnsafeIsFatal(net, l, [ev] + evs, used);
    var at := Exec(net, l, [ev] + evs);
    if net.stack.Sealable(next, message) && SealableBy(net, evs, x) && NeverOpens(evs, x) && at.At(x).sending.None? {
      var m := Step(net, l, ev).0;
      SenderHolds(Look(net, l), x, used);
      LookAt(net, l, x);
      CellStep(net, l, ev);
      KeepsCell(net, m, evs, x);
      forall m, n | net.stack.Sealable(n, m) && net.Fits(x, n, m)
        ensures Trace(net, at, SendEvents(x, m, n)) == [Stepped, Sent(m)]
      {
        SendOkIffFits(net, at, x, m, n);
      }
    }
  }
}
