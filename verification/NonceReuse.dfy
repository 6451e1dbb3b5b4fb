/**
 Exactly when a nonce seals two packets, in any run, crossing or not, with messages of any
 size: when a seal crosses, and when a side seals after its peer has sealed an oversize message.
 */
module NonceReuse {
  import opened Wrappers
  import opened Crypto
  import opened NonceLink
  import opened NonceChain
  import opened NonceDeath
  import opened LinkRuns
  import opened NonceUse

  /** `y` seals a message in this run. */
  predicate Seals(net: Net, l: Link, evs: seq<Event>, y: Side) {
    exists k :: 0 <= k < |evs| && evs[k].Seal? && evs[k].side == y && Trace(net, l, evs)[k] == Stepped
  }

  lemma SealsCons(net: Net, l: Link, evs: seq<Event>, y: Side)
    requires evs != []
    ensures Seals(net, l, evs, y) <==>
            (evs[0].Seal? && evs[0].side == y && Step(net, l, evs[0]).1 == Stepped)
            || Seals(net, Step(net, l, evs[0]).0, evs[1..], y)
  {
    var (m, out) := Step(net, l, evs[0]);
    assert Trace(net, l, evs) == [out] + Trace(net, m, evs[1..]);
    if Seals(net, m, evs[1..], y) {
      var tail := evs[1..];
      var k :| 0 <= k < |tail| && tail[k].Seal? && tail[k].side == y && Trace(net, m, tail)[k] == Stepped;
      assert evs[k + 1].Seal? && evs[k + 1].side == y && Trace(net, l, evs)[k + 1] == Stepped;
    }
    if Seals(net, l, evs, y) {
      var k :| 0 <= k < |evs| && evs[k].Seal? && evs[k].side == y && Trace(net, l, evs)[k] == Stepped;
      if k > 0 {
        assert evs[1..][k - 1].Seal? && evs[1..][k - 1].side == y && Trace(net, m, evs[1..])[k - 1] == Stepped;
      }
    }
  }

  /** A seal that succeeds and whose packet the size check is going to drop. */
  predicate Loses(net: Net, l: Link, ev: Event) {
    ev.Seal? && Step(net, l, ev).1 == Stepped && !net.Fits(ev.side, ev.next, ev.message)
  }

  /** Some seal crosses and succeeds, or some side seals an oversize message and its peer seals afterwards. */
  predicate Collides(net: Net, l: Link, evs: seq<Event>)
    decreases |evs|
  {
    evs != [] &&
    var (m, out) := Step(net, l, evs[0]);
    || (Crosses(net, l, evs[0]) && out == Stepped)
    || (Loses(net, l, evs[0]) && Seals(net, m, evs[1..], evs[0].side.Peer()))
    || Collides(net, m, evs[1..])
  }

  // After a loss

  /** `y` has sealed nothing since its peer sealed an oversize message: it only comes to nonces that are used. */
  predicate AfterLoss(v: Views, y: Side, spent: set<Nonce>) {
    var mine := v.At(y.Peer());
    && Reach(v.At(y).cell, v.At(y).queue) <= spent
    && mine.queue == [] && (mine.cell.Some? ==> mine.cell.value !in spent)
  }

  lemma AfterLossView(net: Net, ev: Event, out: Outcome, v: Views, w: Views, y: Side, used: set<Nonce>,
                      spent: set<Nonce>)
    requires net.Encrypted() && Known(v, used) && spent <= used && ViewNext(net, ev, out, v, w)
    requires AfterLoss(v, y, spent) && (ev.Seal? ==> ev.next !in used)
    ensures var use := ViewUse(ev, out, v);
      if ev.Seal? && ev.side == y && out == Stepped then |use| == 1 && use[0] in spent
      else && |use| <= 1 && (use != [] ==> use[0] !in spent)
           && AfterLoss(w, y, Spend(spent, use)) && Spend(spent, use) <= used + Drawn(ev)
  {
    var x := y.Peer();
    var a, b := v.At(x), v.At(y);
    assert Within(b.queue, used) && (a.cell.Some? ==> a.cell.value in used);
    ReachBasics(b.cell, b.queue, used);
    assert a.queue + [] == a.queue && b.queue + [] == b.queue && x.Peer() == y;
    if ev.Seal? && ev.side == x && out == Stepped {
      QueueAppend(b.cell, b.queue, Item(a.cell.value, ev.next, ev.message));
    } else if ev.Seal? && ev.side == y && out.Failed? {
      EmptyCell(b.queue);
    } else if ev.Open? && out != Blocked {
      EmptyCell(b.queue[1..]);
    }
  }

  lemma AfterLossStep(net: Net, l: Link, ev: Event, y: Side, used: set<Nonce>, spent: set<Nonce>)
    requires net.Encrypted() && Known(Look(net, l), used) && spent <= used && AfterLoss(Look(net, l), y, spent)
    requires ev.Seal? ==> ev.next !in used
    ensures var (m, out, use) := (Step(net, l, ev).0, Step(net, l, ev).1, UsedBy(net, l, ev));
      && Known(Look(net, m), used + Drawn(ev)) && |use| <= 1
      && (Crosses(net, l, ev) && out == Stepped ==> ev.side == y)
      && if ev.Seal? && ev.side == y && out == Stepped then |use| == 1 && use[0] in spent
         else
           && (use != [] ==> use[0] !in spent)
           && AfterLoss(Look(net, m), y, Spend(spent, use)) && Spend(spent, use) <= used + Drawn(ev)
  {
    var (m, out) := Step(net, l, ev);
    StepView(net, l, ev);
    LookAt(net, l, ev.side);
    AfterLossView(net, ev, out, Look(net, l), Look(net, m), y, used, spent);
    KnownView(net, ev, out, Look(net, l), Look(net, m), used);
    assert UsedBy(net, l, ev) == ViewUse(ev, out, Look(net, l));
    assert ev.side == y || ev.side == y.Peer();
  }

  /** From there on a nonce is used twice iff `y` seals, and without a seal of `y` nothing crosses. */
  lemma {:induction false} SingleUseAfterLoss(net: Net, l: Link, evs: seq<Event>, y: Side, used: set<Nonce>,
                                              spent: set<Nonce>)
    requires net.Encrypted() && Known(Look(net, l), used) && spent <= used && AfterLoss(Look(net, l), y, spent)
    requires Fresh(evs, used)
    ensures SingleUse(SealNonces(net, l, evs), spent) <==> !Seals(net, l, evs, y)
    ensures Collides(net, l, evs) ==> Seals(net, l, evs, y)
    decreases |evs|
  {
    if evs != [] {
      var ev := evs[0];
      var (m, out) := Step(net, l, ev);
      AfterLossStep(net, l, ev, y, used, spent);
      SealsCons(net, l, evs, y);
      var use := UsedBy(net, l, ev);
      SingleUseOne(use, SealNonces(net, m, evs[1..]), spent);
      if !(ev.Seal? && ev.side == y && out == Stepped) {
        SingleUseAfterLoss(net, m, evs[1..], y, used + Drawn(ev), Spend(spent, use));
        assert Loses(net, l, ev) ==> ev.side.Peer() == y;
      }
    }
  }

  lemma {:induction false} ChainReach(cell: Option<Nonce>, queue: seq<Item>, spent: set<Nonce>)
    requires End(cell, queue).Some? && AllSpent(queue, spent) && End(cell, queue).value in spent
    ensures Reach(cell, queue) <= spent
    decreases |queue|
  {
    if queue != [] {
      assert queue[0].under in spent;
      ChainReach(Some(queue[0].next), queue[1..], spent);
    }
  }

  lemma LossView(net: Net, ev: Event, out: Outcome, v: Views, w: Views, used: set<Nonce>, spent: set<Nonce>)
    requires net.Encrypted() && Live(v, used) && Unspent(v, spent) && spent <= used && ViewNext(net, ev, out, v, w)
    requires ev.Seal? && out == Stepped && v.At(ev.side).queue == [] && ev.next !in used
    requires !net.Fits(ev.side, ev.next, ev.message)
    ensures var use := ViewUse(ev, out, v);
      && |use| == 1 && use[0] !in spent && Spend(spent, use) <= used + Drawn(ev)
      && AfterLoss(w, ev.side.Peer(), Spend(spent, use))
  {
    var x := ev.side;
    var y := x.Peer();
    var a, b := v.At(x), v.At(y);
    assert Chained(a, b) || Chained(b, a);
    assert UnspentAt(a, spent) && UnspentAt(b, spent) && a.cell.value in used;
    assert b.queue + [] == b.queue && End(b.cell, b.queue) == a.cell && y.Peer() == x;
    ChainReach(b.cell, b.queue, Spend(spent, [a.cell.value]));
  }

  // After a refusal

  /** `x` has lost its cell to a message that the cipher refused; its peer goes on from used nonces to an unused one. */
  predicate Silenced(v: Views, x: Side, spent: set<Nonce>) {
    var b := v.At(x.Peer());
    && v.At(x).cell.None?
    && (b.cell.Some? ==> End(b.cell, b.queue).Some? && EndUnspent(b, spent) && AllSpent(b.queue, spent))
  }

  lemma SilencedView(net: Net, ev: Event, out: Outcome, v: Views, w: Views, x: Side, used: set<Nonce>,
                     spent: set<Nonce>)
    requires net.Encrypted() && Known(v, used) && spent <= used && ViewNext(net, ev, out, v, w)
    requires Silenced(v, x, spent) && (ev.Seal? ==> ev.next !in used)
    ensures ev.Seal? && out == Stepped ==> ev.side == x.Peer()
    ensures var use := ViewUse(ev, out, v);
      if ev.Seal? && out == Stepped && v.At(ev.side).queue != [] then |use| == 1 && use[0] in spent
      else && |use| <= 1 && (use != [] ==> use[0] !in spent)
           && Silenced(w, x, Spend(spent, use)) && Spend(spent, use) <= used + Drawn(ev)
  {
    var y := x.Peer();
    var b := v.At(y);
    assert b.cell.Some? ==> b.cell.value in used;
    assert b.queue + [] == b.queue && y.Peer() == x;
    assert ev.side == x || ev.side == y;
  }

  /** From there on a nonce is used twice iff a seal crosses, and `x` does not seal. */
  lemma {:induction false} SingleUseAfterRefusal(net: Net, l: Link, evs: seq<Event>, x: Side, used: set<Nonce>,
                                                 spent: set<Nonce>)
    requires net.Encrypted() && Known(Look(net, l), used) && spent <= used && Silenced(Look(net, l), x, spent)
    requires Fresh(evs, used)
    ensures SingleUse(SealNonces(net, l, evs), spent) <==> !Collides(net, l, evs)
    ensures SingleUse(SealNonces(net, l, evs), spent) ==> !Seals(net, l, evs, x)
    decreases |evs|
  {
    if evs != [] {
      var ev := evs[0];
      var (m, out) := Step(net, l, ev);
      StepView(net, l, ev);
      LookAt(net, l, ev.side);
      SilencedView(net, ev, out, Look(net, l), Look(net, m), x, used, spent);
      KnownView(net, ev, out, Look(net, l), Look(net, m), used);
      SealsCons(net, l, evs, x);
      var use := UsedBy(net, l, ev);
      assert use == ViewUse(ev, out, Look(net, l));
      SingleUseOne(use, SealNonces(net, m, evs[1..]), spent);
      if !(ev.Seal? && out == Stepped && Look(net, l).At(ev.side).queue != []) {
        SingleUseAfterRefusal(net, m, evs[1..], x, used + Drawn(ev), Spend(spent, use));
      }
    }
  }

  lemma RefusalView(net: Net, ev: Event, out: Outcome, v: Views, w: Views, used: set<Nonce>, spent: set<Nonce>)
    requires net.Encrypted() && Live(v, used) && Unspent(v, spent) && ViewNext(net, ev, out, v, w)
    requires ev.Seal? && out.Failed?
    ensures Silenced(w, ev.side, spent)
  {
    var x := ev.side;
    var y := x.Peer();
    assert UnspentAt(v.At(x), spent) && UnspentAt(v.At(y), spent);
    assert Chained(v.At(x), v.At(y)) || Chained(v.At(y), v.At(x));
    assert v.At(y).queue + [] == v.At(y).queue && y.Peer() == x;
  }

  // Whole runs

  /**
   The nonce of an oversize message is used a second time iff the peer ever seals again, even
   without a crossing: its cell still holds that nonce.
   */
  lemma OversizeNonceReuse(net: Net, l: Link, evs: seq<Event>, used: set<Nonce>, spent: set<Nonce>)
    requires net.Encrypted() && Live(Look(net, l), used) && Unspent(Look(net, l), spent) && spent <= used
    requires evs != [] && Fresh(evs, used) && Loses(net, l, evs[0]) && !Crosses(net, l, evs[0])
    ensures SingleUse(SealNonces(net, l, evs), spent) <==> !Collides(net, l, evs)
    ensures Collides(net, l, evs) <==> Seals(net, Step(net, l, evs[0]).0, evs[1..], evs[0].side.Peer())
  {
    var ev, tail := evs[0], evs[1..];
    var (m, out) := Step(net, l, ev);
    StepView(net, l, ev);
    LookAt(net, l, ev.side);
    KnownView(net, ev, out, Look(net, l), Look(net, m), used);
    LossView(net, ev, out, Look(net, l), Look(net, m), used, spent);
    var use := UsedBy(net, l, ev);
    assert use == ViewUse(ev, out, Look(net, l));
    SingleUseOne(use, SealNonces(net, m, tail), spent);
    SingleUseAfterLoss(net, m, tail, ev.side.Peer(), used + Drawn(ev), Spend(spent, use));
  }

  lemma AfterRefusalFrom(net: Net, l: Link, evs: seq<Event>, used: set<Nonce>, spent: set<Nonce>)
    requires net.Encrypted() && Live(Look(net, l), used) && Unspent(Look(net, l), spent) && spent <= used
    requires evs != [] && Fresh(evs, used) && evs[0].Seal? && Step(net, l, evs[0]).1.Failed?
    ensures SingleUse(SealNonces(net, l, evs), spent) <==> !Collides(net, l, evs)
  {
    var ev, tail := evs[0], evs[1..];
    var (m, out) := Step(net, l, ev);
    StepView(net, l, ev);
    KnownView(net, ev, out, Look(net, l), Look(net, m), used);
    RefusalView(net, ev, out, Look(net, l), Look(net, m), used, spent);
    SingleUseOne([], SealNonces(net, m, tail), spent);
    assert Spend(spent, []) == spent;
    SingleUseAfterRefusal(net, m, tail, ev.side, used + Drawn(ev), spent);
  }

  lemma CrossingReusesFrom(net: Net, l: Link, evs: seq<Event>, used: set<Nonce>, spent: set<Nonce>)
    requires net.Encrypted() && Live(Look(net, l), used) && Unspent(Look(net, l), spent)
    requires evs != [] && Crosses(net, l, evs[0]) && Step(net, l, evs[0]).1 == Stepped
    ensures !SingleUse(SealNonces(net, l, evs), spent)
  {
    var ev := evs[0];
    var (m, out) := Step(net, l, ev);
    StepView(net, l, ev);
    LookAt(net, l, ev.side);
    HeadOpens(Look(net, l), ev.side);
    assert UnspentAt(Look(net, l).At(ev.side), spent);
    assert UsedBy(net, l, ev) == ViewUse(ev, out, Look(net, l));
    SingleUseOne(UsedBy(net, l, ev), SealNonces(net, m, evs[1..]), spent);
  }

  lemma SafeUse(net: Net, l: Link, ev: Event, used: set<Nonce>, spent: set<Nonce>)
    requires net.Encrypted() && Live(Look(net, l), used) && Unspent(Look(net, l), spent) && spent <= used
    requires Safe(net, l, ev) && (ev.Seal? ==> ev.next !in used)
    ensures var (m, use) := (Step(net, l, ev).0, UsedBy(net, l, ev));
      && |use| <= 1 && (use != [] ==> use[0] !in spent) && Spend(spent, use) <= used + Drawn(ev)
      && Live(Look(net, m), used + Drawn(ev)) && Unspent(Look(net, m), Spend(spent, use))
  {
    StepView(net, l, ev);
    LookAt(net, l, ev.side);
    var (m, out) := Step(net, l, ev);
    assert UsedBy(net, l, ev) == ViewUse(ev, out, Look(net, l));
    UnspentView(net, ev, out, Look(net, l), Look(net, m), used, spent);
    LiveView(net, ev, out, Look(net, l), Look(net, m), used);
  }

  lemma {:induction false} SingleUseFromLive(net: Net, l: Link, evs: seq<Event>, used: set<Nonce>, spent: set<Nonce>)
    requires net.Encrypted() && Live(Look(net, l), used) && Unspent(Look(net, l), spent) && spent <= used
    requires Fresh(evs, used)
    ensures SingleUse(SealNonces(net, l, evs), spent) <==> !Collides(net, l, evs)
    decreases |evs|
  {
    if evs != [] {
      var ev := evs[0];
      var (m, out) := Step(net, l, ev);
      if Crosses(net, l, ev) && out == Stepped {
        CrossingReusesFrom(net, l, evs, used, spent);
      } else if Loses(net, l, ev) {
        OversizeNonceReuse(net, l, evs, used, spent);
      } else if ev.Seal? && out.Failed? {
        AfterRefusalFrom(net, l, evs, used, spent);
      } else {
        IsSafe(net, l, ev, used);
        SafeUse(net, l, ev, used, spent);
        SingleUseOne(UsedBy(net, l, ev), SealNonces(net, m, evs[1..]), spent);
        SingleUseFromLive(net, m, evs[1..], used + Drawn(ev), Spend(spent, UsedBy(net, l, ev)));
      }
    }
  }

  lemma IsSafe(net: Net, l: Link, ev: Event, used: set<Nonce>)
    requires net.Encrypted() && Live(Look(net, l), used)
    requires !(Crosses(net, l, ev) && Step(net, l, ev).1 == Stepped) && !Loses(net, l, ev)
    requires !(ev.Seal? && Step(net, l, ev).1.Failed?)
    ensures Safe(net, l, ev)
  {
    CellStep(net, l, ev);
  }

  /**
   Nonce single use, exactly, over every run: crossing or not, and with messages of any size, also
   of sizes that the cipher refuses. No nonce seals two packets iff no seal that crosses succeeds
   and no side seals after its peer has sealed an oversize message.
   */
  lemma SingleUseExactly(net: Net, nonce: Nonce, evs: seq<Event>)
    requires net.Encrypted() && Fresh(evs, {nonce})
    ensures SingleUse(SealNonces(net, Start(Some(nonce)), evs), {}) <==> !Collides(net, Start(Some(nonce)), evs)
  {
    StartLive(net, nonce);
    SingleUseFromLive(net, Start(Some(nonce)), evs, {nonce}, {});
  }

  /** Some side seals an oversize message, and its peer seals afterwards. */
  predicate LossThenPeer(net: Net, l: Link, evs: seq<Event>)
    decreases |evs|
  {
    evs != [] &&
    var m := Step(net, l, evs[0]).0;
    (Loses(net, l, evs[0]) && Seals(net, m, evs[1..], evs[0].side.Peer())) || LossThenPeer(net, m, evs[1..])
  }

  lemma {:induction false} CollidesByLoss(net: Net, l: Link, evs: seq<Event>)
    requires NonCrossing(net, l, evs)
    ensures Collides(net, l, evs) <==> LossThenPeer(net, l, evs)
    decreases |evs|
  {
    if evs != [] {
      CollidesByLoss(net, Step(net, l, evs[0]).0, evs[1..]);
    }
  }

  /**
   In a non-crossing run, in particular, no nonce seals two packets iff no side that has sealed an
   oversize message is followed by a seal of its peer.
   */
  lemma SingleUseIffNoLoss(net: Net, nonce: Nonce, evs: seq<Event>)
    requires net.Encrypted() && Fresh(evs, {nonce}) && NonCrossing(net, Start(Some(nonce)), evs)
    ensures SingleUse(SealNonces(net, Start(Some(nonce)), evs), {}) <==> !LossThenPeer(net, Start(Some(nonce)), evs)
  {
    SingleUseExactly(net, nonce, evs);
    CollidesByLoss(net, Start(Some(nonce)), evs);
  }
}
