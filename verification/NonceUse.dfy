/**
 How often a nonce seals. A nonce is used by a seal that succeeds; it is used on the wire
 if the sealed packet passes the size check.
 */
module NonceUse {
  import opened Wrappers
  import opened Crypto
  import opened NonceLink
  import opened NonceChain
  import opened NonceDeath
  import opened LinkRuns

  function UsedBy(net: Net, l: Link, ev: Event): seq<Nonce> {
    if ev.Seal? && Step(net, l, ev).1 == Stepped then OptionSeq(l.At(ev.side).cell) else []
  }

  /** The nonces that the successful seals of a run used, in order. */
  function SealNonces(net: Net, l: Link, evs: seq<Event>): seq<Nonce>
    decreases |evs|
  {
    if evs == [] then [] else UsedBy(net, l, evs[0]) + SealNonces(net, Step(net, l, evs[0]).0, evs[1..])
  }

  /** The same for the packets that reach the wire. */
  function WireNonces(net: Net, l: Link, evs: seq<Event>): seq<Nonce>
    decreases |evs|
  {
    if evs == [] then []
    else (if Fitting(net, evs[0]) then UsedBy(net, l, evs[0]) else []) +
         WireNonces(net, Step(net, l, evs[0]).0, evs[1..])
  }

  /** No nonce twice, and none of `spent`. */
  predicate SingleUse(nonces: seq<Nonce>, spent: set<Nonce>) {
    nonces == [] || (nonces[0] !in spent && SingleUse(nonces[1..], spent + {nonces[0]}))
  }

  lemma {:induction false} SingleUseMeans(nonces: seq<Nonce>, spent: set<Nonce>)
    ensures SingleUse(nonces, spent) <==>
            && (forall i, j :: 0 <= i < j < |nonces| ==> nonces[i] != nonces[j])
            && (forall i :: 0 <= i < |nonces| ==> nonces[i] !in spent)
  {
    if nonces != [] {
      var n, tail := nonces[0], nonces[1..];
      SingleUseMeans(tail, spent + {n});
      assert forall i :: 0 <= i < |tail| ==> tail[i] == nonces[i + 1];
      if SingleUse(nonces, spent) {
        forall i, j | 0 <= i < j < |nonces|
          ensures nonces[i] != nonces[j]
        {
          assert nonces[j] == tail[j - 1];
          if i > 0 {
            assert nonces[i] == tail[i - 1];
          }
        }
        forall i | 0 <= i < |nonces|
          ensures nonces[i] !in spent
        {
          if i > 0 {
            assert nonces[i] == tail[i - 1];
          }
        }
      }
    }
  }

  function Spend(spent: set<Nonce>, nonces: seq<Nonce>): set<Nonce> {
    spent + set n | n in nonces
  }

  lemma SingleUseOne(use: seq<Nonce>, later: seq<Nonce>, spent: set<Nonce>)
    requires |use| <= 1
    ensures SingleUse(use + later, spent) <==>
            (use != [] ==> use[0] !in spent) && SingleUse(later, Spend(spent, use))
  {
    if use == [] {
      assert use + later == later && Spend(spent, use) == spent;
    } else {
      assert (use + later)[1..] == later && Spend(spent, use) == spent + {use[0]};
    }
  }

  // Fitting runs: the nonce is reused exactly at a crossing

  /** Whoever may seal holds a nonce not used yet, and everything on the way was sealed in this run. */
  predicate Unspent(v: Views, spent: set<Nonce>) {
    UnspentAt(v.client, spent) && UnspentAt(v.server, spent)
  }

  predicate UnspentAt(v: View, spent: set<Nonce>) {
    && (v.queue == [] && v.cell.Some? ==> v.cell.value !in spent)
    && AllSpent(v.queue, spent)
  }

  predicate AllSpent(queue: seq<Item>, spent: set<Nonce>) {
    forall k :: 0 <= k < |queue| ==> queue[k].under in spent
  }

  function ViewUse(ev: Event, out: Outcome, v: Views): seq<Nonce> {
    if ev.Seal? && out == Stepped then OptionSeq(v.At(ev.side).cell) else []
  }

  lemma UnspentView(net: Net, ev: Event, out: Outcome, v: Views, w: Views, used: set<Nonce>, spent: set<Nonce>)
    requires net.Encrypted() && Live(v, used) && Unspent(v, spent) && spent <= used && ViewNext(net, ev, out, v, w)
    requires ev.Seal? ==> ev.next !in used
    requires ev.Seal? && out != Blocked ==> Fitting(net, ev) && v.At(ev.side).queue == []
    ensures var use := ViewUse(ev, out, v);
      && |use| <= 1 && (use != [] ==> use[0] !in spent)
      && Unspent(w, Spend(spent, use)) && Spend(spent, use) <= used + Drawn(ev)
  {
    var x := ev.side;
    var y := x.Peer();
    var use := ViewUse(ev, out, v);
    var after := Spend(spent, use);
    assert UnspentAt(v.At(x), spent) && UnspentAt(v.At(y), spent);
    assert Chained(v.At(x), v.At(y)) || Chained(v.At(y), v.At(x));
    assert v.At(x).cell.Some? ==> v.At(x).cell.value in used;
    if ev.Seal? && out != Blocked {
      EndAppend(v.At(y).cell, v.At(y).queue, Item(v.At(x).cell.value, ev.next, ev.message));
      assert w.At(y).queue != [];
      assert UnspentAt(w.At(x), after);
    } else if ev.Open? && out != Blocked {
      HeadOpens(v, x);
      assert after == spent;
      assert Chained(v.At(x), v.At(y)) && End(w.At(x).cell, w.At(x).queue) == v.At(y).cell;
      assert UnspentAt(w.At(x), after);
    } else {
      assert after == spent;
    }
    assert UnspentAt(w.At(x), after) && UnspentAt(w.At(y), after);
  }

  /** A seal that crosses uses the very nonce that sealed the packet it crosses with. */
  lemma CrossingReuses(net: Net, ev: Event, out: Outcome, v: Views, w: Views, spent: set<Nonce>)
    requires net.Encrypted() && Synced(v) && Unspent(v, spent) && ViewNext(net, ev, out, v, w)
    requires ev.Seal? && out != Blocked && Fitting(net, ev) && v.At(ev.side).queue != []
    ensures |ViewUse(ev, out, v)| == 1 && ViewUse(ev, out, v)[0] in spent
  {
    HeadOpens(v, ev.side);
    assert UnspentAt(v.At(ev.side), spent);
  }

  /** In a run of fitting messages no nonce seals two packets iff no seal crosses. */
  lemma {:induction false} SingleUseFrom(net: Net, l: Link, evs: seq<Event>, used: set<Nonce>, spent: set<Nonce>)
    requires net.Encrypted() && Live(Look(net, l), used) && Unspent(Look(net, l), spent) && spent <= used
    requires AllFitting(net, evs) && Fresh(evs, used)
    ensures SingleUse(SealNonces(net, l, evs), spent) <==> NonCrossing(net, l, evs)
    decreases |evs|
  {
    if evs != [] {
      var ev := evs[0];
      var (m, out) := Step(net, l, ev);
      var v, w := Look(net, l), Look(net, m);
      assert Fitting(net, ev);
      StepView(net, l, ev);
      LookAt(net, l, ev.side);
      assert UsedBy(net, l, ev) == ViewUse(ev, out, v);
      SingleUseOne(UsedBy(net, l, ev), SealNonces(net, m, evs[1..]), spent);
      if Crosses(net, l, ev) {
        CrossingReuses(net, ev, out, v, w, spent);
      } else {
        UnspentView(net, ev, out, v, w, used, spent);
        LiveView(net, ev, out, v, w, used);
        SingleUseFrom(net, m, evs[1..], used + Drawn(ev), Spend(spent, UsedBy(net, l, ev)));
      }
    }
  }

  lemma SingleUseIffNonCrossing(net: Net, nonce: Nonce, evs: seq<Event>)
    requires net.Encrypted() && AllFitting(net, evs) && Fresh(evs, {nonce})
    ensures SingleUse(SealNonces(net, Start(Some(nonce)), evs), {}) <==> NonCrossing(net, Start(Some(nonce)), evs)
  {
    StartLive(net, nonce);
    SingleUseFrom(net, Start(Some(nonce)), evs, {nonce}, {});
  }

  // On the wire, with oversize messages allowed

  predicate EndUnspent(v: View, spent: set<Nonce>) {
    End(v.cell, v.queue).Some? ==> End(v.cell, v.queue).value !in spent
  }

  lemma WireView(net: Net, ev: Event, out: Outcome, v: Views, w: Views, used: set<Nonce>, spent: set<Nonce>)
    requires net.Encrypted() && Known(v, used) && spent <= used && ViewNext(net, ev, out, v, w)
    requires EndUnspent(v.client, spent) && EndUnspent(v.server, spent)
    requires ev.Seal? ==> ev.next !in used
    requires ev.Seal? && out != Blocked ==> v.At(ev.side).queue == []
    ensures var use := if Fitting(net, ev) then ViewUse(ev, out, v) else [];
      && |use| <= 1 && (use != [] ==> use[0] !in spent) && Spend(spent, use) <= used + Drawn(ev)
      && EndUnspent(w.client, Spend(spent, use)) && EndUnspent(w.server, Spend(spent, use))
  {
    var x := ev.side;
    var y := x.Peer();
    var a, b := v.At(x), v.At(y);
    assert EndUnspent(a, spent) && EndUnspent(b, spent);
    assert Within(b.queue, used) && (a.cell.Some? ==> a.cell.value in used);
    var after := Spend(spent, if Fitting(net, ev) then ViewUse(ev, out, v) else []);
    if ev.Seal? && out == Stepped {
      EndAppend(b.cell, b.queue, Item(a.cell.value, ev.next, ev.message));
      assert b.queue + [] == b.queue;
    } else if ev.Seal? {
      assert b.queue + [] == b.queue;
    }
    assert EndUnspent(w.At(x), after) && EndUnspent(w.At(y), after);
  }

  lemma {:induction false} WireSingleUseFrom(net: Net, l: Link, evs: seq<Event>, used: set<Nonce>, spent: set<Nonce>)
    requires net.Encrypted() && Known(Look(net, l), used) && spent <= used
    requires EndUnspent(Look(net, l).client, spent) && EndUnspent(Look(net, l).server, spent)
    requires Fresh(evs, used) && NonCrossing(net, l, evs)
    ensures SingleUse(WireNonces(net, l, evs), spent)
    decreases |evs|
  {
    if evs != [] {
      var ev := evs[0];
      var (m, out) := Step(net, l, ev);
      StepView(net, l, ev);
      LookAt(net, l, ev.side);
      var use := if Fitting(net, ev) then UsedBy(net, l, ev) else [];
      WireView(net, ev, out, Look(net, l), Look(net, m), used, spent);
      KnownView(net, ev, out, Look(net, l), Look(net, m), used);
      SingleUseOne(use, WireNonces(net, m, evs[1..]), spent);
      WireSingleUseFrom(net, m, evs[1..], used + Drawn(ev), Spend(spent, use));
    }
  }

  /**
   In every non-crossing run, whatever the sizes of its messages, no nonce seals two packets
   that reach the wire.
   */
  lemma WireSingleUse(net: Net, nonce: Nonce, evs: seq<Event>)
    requires net.Encrypted() && Fresh(evs, {nonce}) && NonCrossing(net, Start(Some(nonce)), evs)
    ensures SingleUse(WireNonces(net, Start(Some(nonce)), evs), {})
  {
    StartLive(net, nonce);
    WireSingleUseFrom(net, Start(Some(nonce)), evs, {nonce}, {});
  }
}
