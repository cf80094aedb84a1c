/** A leader with its resend store, a network and a member in one run: which
    numbers a SEQ_NAK asks for can still be sent again (acnsrc/sdt/sdt.c). */
module SdtRepair {
  import opened Word
  import opened RlpMem
  import opened SdtSequence
  import opened SdtResend
  import D = SdtDelivery
  import S = SdtSend

  /** The delivery model and the leader's store side by side. */
  datatype Joint = Joint(net: D.State, store: S.Sending)

  /** An event of the delivery model, with the buffer for a reliable wrapper, or a
      tick of the leader. */
  datatype Event = Net(event: D.Event, buf: TxBuf) | Tick

  function Start(sent: bool): Joint {
    Joint(D.Start(sent), S.Start(sent))
  }

  function StoreStep(c: S.Config, s: S.Sending, e: Event): S.Sending {
    match e
    case Tick => S.Step(c, s, S.Tick)
    case Net(Send(isReliable), buf) => S.Step(c, s, if isReliable then S.Reliable(buf) else S.Unreliable)
    case Net(_, _) => s
  }

  function Step(c: S.Config, j: Joint, e: Event): Joint {
    Joint(if e.Net? then D.Step(Exact, c.maxResends, j.net, e.event) else j.net, StoreStep(c, j.store, e))
  }

  function Run(c: S.Config, sent: bool, es: seq<Event>): Joint {
    if es == [] then Start(sent) else Step(c, Run(c, sent, es[..|es| - 1]), es[|es| - 1])
  }

  /** The store is used by this channel alone. */
  ghost predicate Alone(es: seq<Event>) {
    forall e :: e in es && e.Net? ==> !e.event.OtherChannelSends?
  }

  predicate SendsReliably(e: Event) {
    e.Net? && e.event == D.Send(true)
  }

  /** The ticks since a reliable wrapper was sent that `k` others followed. */
  function Since(es: seq<Event>, k: nat): nat {
    if es == [] then 0
    else
      var init, e := es[..|es| - 1], es[|es| - 1];
      if SendsReliably(e) then (if k == 0 then 0 else Since(init, k - 1))
      else Since(init, k) + if e.Tick? then 1 else 0
  }

  /** The wrapper that `k` others followed is still in the store. */
  predicate InTime(c: S.Config, es: seq<Event>, k: nat) {
    k < c.maxResends && Since(es, k) * c.tick < c.timeout
  }

  predicate AgeAt(c: S.Config, es: seq<Event>, reliable: int, stored: seq<Resend>, k: nat) {
    && (k < |stored| <==> k < reliable && InTime(c, es, k))
    && (k < |stored| ==> stored[k].expires == c.timeout - Since(es, k) * c.tick)
  }

  ghost predicate Ages(c: S.Config, es: seq<Event>, reliable: int, stored: seq<Resend>) {
    forall k: nat :: AgeAt(c, es, reliable, stored, k)
  }

  /** The two models agree on the counters, and the store holds what is in time. */
  ghost predicate Coupled(c: S.Config, es: seq<Event>, j: Joint) {
    && D.Inv(c.maxResends, j.net) && S.Shape(c, j.store)
    && j.store.pos == D.Wrapped(j.net.leader) && j.store.sent == j.net.sent
    && Ages(c, es, j.net.leader.reliable, j.store.stored)
  }

  lemma CountersStep(c: S.Config, es: seq<Event>, j: Joint, e: Event)
    requires c.Ok() && c.maxResends < TWO31 && Coupled(c, es, j) && (e.Net? ==> !e.event.OtherChannelSends?)
    ensures var r := Step(c, j, e);
            && D.Inv(c.maxResends, r.net) && S.Shape(c, r.store)
            && r.store.pos == D.Wrapped(r.net.leader) && r.store.sent == r.net.sent
  {
    hide D.Inv, S.Shape, Ages, Stamp, Saved, Ticked, D.Wrapped;
    match e {
      case Tick => S.StepKeepsShape(c, j.store, S.Tick);
      case Net(d, buf) =>
        D.StepKeeps(c.maxResends, j.net, d);
        if d.Send? {
          LeaderWindow(c, j.net);
          D.StampRefines(c.maxResends, j.net.leader, j.net.sent, d.isReliable);
          S.StepKeepsShape(c, j.store, if d.isReliable then S.Reliable(buf) else S.Unreliable);
          SavedNumber(c, j.store);
        }
    }
  }

  lemma LeaderWindow(c: S.Config, s: D.State)
    requires D.Inv(c.maxResends, s)
    ensures D.Window(c.maxResends, s.leader.reliable, s.leader.oldest)
  {
  }

  lemma SavedNumber(c: S.Config, s: S.Sending)
    requires c.Ok() && S.Shape(c, s)
    ensures InRange(s.pos)
  {
  }

  /** Saving a wrapper moves the ages along by one. */
  lemma SavedAges(c: S.Config, es: seq<Event>, e: Event, reliable: int, stored: seq<Resend>, seqno: uint32, buf: TxBuf)
    requires c.Ok() && Ages(c, es, reliable, stored) && SendsReliably(e) && |stored| <= c.maxResends && reliable >= 0
    ensures Ages(c, es + [e], reliable + 1, Saved(c.maxResends, stored, seqno, c.timeout, buf))
  {
    var saved := Saved(c.maxResends, stored, seqno, c.timeout, buf);
    var longer, next := es + [e], reliable + 1;
    assert longer[..|es|] == es;
    forall k: nat ensures AgeAt(c, longer, next, saved, k) {
      if k > 0 {
        assert AgeAt(c, es, reliable, stored, k - 1);
      } else {
        assert 0 * c.tick == 0;
      }
    }
  }

  lemma TickedAges(c: S.Config, es: seq<Event>, reliable: int, stored: seq<Resend>)
    requires c.Ok() && Ages(c, es, reliable, stored) && NewestFirst(stored, c.timeout)
    ensures Ages(c, es + [Tick], reliable, Ticked(stored, c.tick))
  {
    hide Ticked;
    assert (es + [Tick])[..|es|] == es;
    TickDropsSuffix(stored, c.tick, c.timeout);
    forall k: nat ensures AgeAt(c, es + [Tick], reliable, Ticked(stored, c.tick), k) {
      assert AgeAt(c, es, reliable, stored, k);
      assert (Since(es, k) + 1) * c.tick == Since(es, k) * c.tick + c.tick;
    }
  }

  lemma OtherAges(c: S.Config, es: seq<Event>, e: Event, reliable: int, stored: seq<Resend>)
    requires Ages(c, es, reliable, stored) && !SendsReliably(e) && !e.Tick?
    ensures Ages(c, es + [e], reliable, stored)
  {
    assert (es + [e])[..|es|] == es;
    forall k: nat ensures AgeAt(c, es + [e], reliable, stored, k) {
      assert AgeAt(c, es, reliable, stored, k);
    }
  }

  lemma AgesStep(c: S.Config, es: seq<Event>, j: Joint, e: Event)
    requires c.Ok() && Coupled(c, es, j)
    ensures var r := Step(c, j, e); Ages(c, es + [e], r.net.leader.reliable, r.store.stored)
  {
    hide Ages, Ticked, Saved;
    D.LogRises(c.maxResends, j.net.log, 0, |j.net.log|);
    match e {
      case Tick => TickedAges(c, es, j.net.leader.reliable, j.store.stored);
      case Net(d, buf) =>
        if d == D.Send(true) {
          var pos := Stamp(Mod32, c.maxResends, j.store.pos, j.store.sent, true);
          SavedAges(c, es, e, j.net.leader.reliable, j.store.stored, Wrap(pos.reliable), buf);
        } else {
          OtherAges(c, es, e, j.net.leader.reliable, j.store.stored);
        }
    }
  }

  lemma {:induction false} RunCoupled(c: S.Config, sent: bool, es: seq<Event>)
    requires c.Ok() && c.maxResends < TWO31 && Alone(es)
    ensures Coupled(c, es, Run(c, sent, es))
  {
    hide Coupled, Step;
    if es == [] {
      StartCoupled(c, sent);
    } else {
      var init, e := es[..|es| - 1], es[|es| - 1];
      assert es == init + [e];
      RunCoupled(c, sent, init);
      StepCoupled(c, init, Run(c, sent, init), e);
    }
  }

  lemma StartCoupled(c: S.Config, sent: bool)
    requires c.Ok()
    ensures Coupled(c, [], Start(sent))
  {
    D.StartKeeps(c.maxResends, sent);
    S.RunKeepsShape(c, sent, []);
    assert forall k: nat :: AgeAt(c, [], 0, [], k);
  }

  lemma StepCoupled(c: S.Config, es: seq<Event>, j: Joint, e: Event)
    requires c.Ok() && c.maxResends < TWO31 && Coupled(c, es, j) && (e.Net? ==> !e.event.OtherChannelSends?)
    ensures Coupled(c, es + [e], Step(c, j, e))
  {
    hide Step, Ages, D.Inv, S.Shape, D.Wrapped;
    CountersStep(c, es, j, e);
    AgesStep(c, es, j, e);
  }

  predicate Stored(s: S.Sending, number: uint32) {
    exists i :: 0 <= i < |s.stored| && s.stored[i].seqno == number
  }

  /** Everything a SEQ_NAK asks for can be sent again exactly if the oldest number
      it asks for is still in time: the leader has sent fewer than SDT_MAX_RESENDS
      reliable wrappers after it, and its timeout is not over. */
  lemma NakIsAnswerable(c: S.Config, sent: bool, es: seq<Event>, i: nat)
    requires c.Ok() && c.maxResends < TWO31 && Alone(es)
    requires var j := Run(c, sent, es);
             && i < |j.net.log| && Judge(Exact, j.net.member, j.net.log[i]) == Nak
             && j.net.leader.reliable - j.net.member.reliable < TWO32
    ensures var j := Run(c, sent, es);
            var later := j.net.leader.reliable - j.net.member.reliable - 1;
            && later >= 0
            && ((forall n | j.net.member.reliable < n <= j.net.log[i].reliable :: Stored(j.store, Wrap(n))) <==>
                InTime(c, es, later))
  {
    hide Wrap, Judge, D.LogOk, D.InOrder, Run, Stored, Ages, InTime, NewestFirst;
    RunCoupled(c, sent, es);
    var j := Run(c, sent, es);
    var m, l := j.net.member.reliable, j.net.leader.reliable;
    D.NakOnLog(c.maxResends, j.net.log, j.net.member, i);
    D.LogRises(c.maxResends, j.net.log, i + 1, |j.net.log|);
    D.LogRises(c.maxResends, j.net.log, 0, j.net.member.total);
    forall n | m < n <= j.net.log[i].reliable ensures Stored(j.store, Wrap(n)) <==> l - n < |j.store.stored| {
      StoredDistance(c, j.store, l, n);
    }
    AgeIs(c, es, l, j.store.stored, l - m - 1);
    assert Stored(j.store, Wrap(m + 1)) <==> l - (m + 1) < |j.store.stored|;
  }

  lemma AgeIs(c: S.Config, es: seq<Event>, reliable: int, stored: seq<Resend>, k: nat)
    requires Ages(c, es, reliable, stored)
    ensures k < |stored| <==> k < reliable && InTime(c, es, k)
  {
    assert AgeAt(c, es, reliable, stored, k);
  }

  lemma StoredDistance(c: S.Config, s: S.Sending, l: int, n: int)
    requires c.Ok() && S.Shape(c, s) && s.pos.reliable == Wrap(l) && 0 <= l - n < TWO32
    ensures Stored(s, Wrap(n)) <==> l - n < |s.stored|
  {
    S.StoredNumbers(c, s, Wrap(n));
    WrapMinus(l, n);
    WrapSmall(l - n);
  }
}
