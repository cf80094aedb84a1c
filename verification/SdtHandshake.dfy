/** Which states of a handshake can still end in a session: what has been said in
    each state, how to finish, and the states in which it is too late. */
module SdtHandshake {
  import opened Word
  import opened Wrappers
  import opened SdtJoin
  import opened SdtAgreement

  ghost predicate CanConnect(s: State) {
    exists t :: Leads(s, t) && AllConnected(t)
  }

  // ----- When it is too late -----

  /** The ACK came between the JOIN_ACCEPT and the JOIN that go with it: the JOIN
      is now accepted without an ACK. */
  predicate AckedTooSoon(x: Side) {
    PeerAtLeast(x, Joined) && x.own.Some? && x.own.value.state == Empty
  }

  /** The CONNECT came before the ACK: the own CONNECT is not sent any more. */
  predicate Silenced(x: Side, out: set<Message>) {
    && x.own.Some? && x.own.value.state == Connected
    && x.peer.Some? && Connect(x.peer.value.mid) !in out
  }

  predicate Stuck(x: Side, out: set<Message>) {
    Wedged(x) || AckedTooSoon(x) || Silenced(x, out)
  }

  predicate Hopeless(s: State) {
    (AskedFirst(s.a) && AskedFirst(s.b)) || Stuck(s.a, s.fromA) || Stuck(s.b, s.fromB)
  }

  lemma StuckStays(s: State, e: Event)
    requires Inv(s) && Stuck(s.a, s.fromA)
    ensures Stuck(Step(s, e).a, Step(s, e).fromA)
  {
    hide AllHonest;
    if e.toA && e.Arrive? && e.message in s.fromB {
      OneHonest(s, e.message);
    }
  }

  lemma CrossedStays(s: State, e: Event)
    requires Inv(s) && AskedFirst(s.a) && AskedFirst(s.b)
    ensures AskedFirst(Step(s, e).a)
  {
    hide AllHonest;
    if e.toA && e.Arrive? && e.message in s.fromB {
      OneHonest(s, e.message);
    }
  }

  lemma MirrorInv(s: State)
    requires Inv(s)
    ensures Inv(Mirror(s))
  {
    hide Half;
  }

  lemma HopelessStep(s: State, e: Event)
    requires Inv(s) && Hopeless(s)
    ensures Hopeless(Step(s, e))
  {
    hide Step, Inv, Stuck, AskedFirst;
    var f := e.(toA := !e.toA);
    MirrorInv(s);
    MirrorStep(s, e);
    if Stuck(s.a, s.fromA) {
      StuckStays(s, e);
    } else if Stuck(s.b, s.fromB) {
      StuckStays(Mirror(s), f);
    } else {
      CrossedStays(s, e);
      CrossedStays(Mirror(s), f);
    }
  }

  // ----- What has been said -----

  /** The two records move in step: both become msJOINED with one ACK. */
  predicate InStep(x: Side) {
    && x.peer.Some? && x.own.Some?
    && (x.own.value.state == Joined ==> x.peer.value.state != WaitForAck)
    && (PeerAtLeast(x, Joined) ==> x.own.value.state != WaitForAck)
  }

  /** A joined side has sent its CONNECT unless it was silenced, and a connected one
      has answered the other's. */
  predicate Spoke(x: Side, out: set<Message>) {
    && x.peer.Some? && x.own.Some? && x.peerChan.Some?
    && (PeerAtLeast(x, Joined) && x.own.value.state == Joined ==> Connect(x.peer.value.mid) in out)
    && (x.own.value.state == Connected ==> ConnectAccept(x.peer.value.mid, x.peerChan.value) in out)
  }

  /** What B has sent since its own record waits for an ACK. */
  predicate BAnswered(a: Side, b: Side, fromB: set<Message>)
    requires a.peer.Some? && a.chan.Some? && b.peer.Some? && b.chan.Some?
  {
    OwnAtLeast(b, WaitForAck) ==>
      && JoinAccept(a.chan.value, a.peer.value.mid, b.chan.value) in fromB
      && Ack(b.peer.value.mid, a.chan.value) in fromB
  }

  /** A has taken B's offer before it made one of its own. */
  ghost predicate Answered(s: State) {
    && InStep(s.a) && InStep(s.b) && OwnAtLeast(s.a, WaitForAck)
    && s.a.chan.Some? && s.b.chan.Some?
    && var na, ma, nb, mb := s.a.chan.value, s.a.peer.value.mid, s.b.chan.value, s.b.peer.value.mid;
    && JoinAccept(nb, mb, na) in s.fromA && Join(ma, na, nb) in s.fromA
    && BAnswered(s.a, s.b, s.fromB)
    && (s.b.peer.value.state == WaitForAccept ==> s.b.own.value.state == Empty)
    && (PeerAtLeast(s.a, WaitForAck) ==> Ack(ma, nb) in s.fromA)
    && Spoke(s.a, s.fromA) && Spoke(s.b, s.fromB)
    && (OwnAtLeast(s.b, Connected) ==> Connect(ma) in s.fromA)
    && (OwnAtLeast(s.a, Connected) ==> Connect(mb) in s.fromB)
  }

  /** B has made an offer with a channel number. */
  predicate Offers(s: State) {
    && PeerAtLeast(s.b, WaitForAccept) && s.b.own.Some? && s.b.own.value.state != WaitForAccept
    && s.b.chan.Some? && s.b.chan.value != 0
    && Join(s.b.peer.value.mid, s.b.chan.value, 0) in s.fromB
  }

  /** The three ways it can go on from B's offer. */
  ghost predicate Told(s: State) {
    && Inv(s) && Offers(s)
    && (Fresh(s.a) || (AskedFirst(s.a) && AskedFirst(s.b)) || Answered(s))
  }

  lemma FirstOfB(s: State)
    requires Inv(s) && Offers(s) && Fresh(s.a)
    ensures AskedFirst(s.b) && s.b.peer.value.state == WaitForAccept && s.b.peerChan.Some?
    ensures forall m :: m in s.fromA ==> m.Mak?
    ensures forall m :: m in s.fromB && m.Join? ==> m == Join(s.b.peer.value.mid, s.b.chan.value, 0)
  {
    forall m | m in s.fromA ensures m.Mak? {
      assert Honest(s.a, s.b, s.fromA, s.fromB, m);
    }
    forall m | m in s.fromB && m.Join? ensures m == Join(s.b.peer.value.mid, s.b.chan.value, 0) {
      assert Honest(s.b, s.a, s.fromB, s.fromA, m);
    }
  }

  /** A takes the offer: it answers with its own JOIN. */
  lemma FreshJoin(s: State, e: Event)
    requires Inv(s) && Offers(s) && Fresh(s.a) && e.toA && e.Arrive? && e.message in s.fromB && e.message.Join?
    ensures var t := Step(s, e);
            && Offers(t) && Answered(t) && t.b == s.b && t.fromB == s.fromB
            && t.a.peer.value.state == WaitForAccept && t.a.own.value.state == WaitForAck
  {
    hide Half;
    FirstOfB(s);
    var o := Take(s.a, e.message, e.number, e.mid);
    var na, nb, mb := o.side.chan.value, s.b.chan.value, s.b.peer.value.mid;
    assert o.sent == [JoinAccept(nb, mb, na), Join(e.mid, na, nb)];
    assert o.sent[0] in o.sent && o.sent[1] in o.sent;
  }

  lemma FreshStep(s: State, e: Event)
    requires Inv(s) && Offers(s) && Fresh(s.a)
    ensures var t := Step(s, e); Offers(t) && (Fresh(t.a) || (AskedFirst(t.a) && AskedFirst(t.b)) || Answered(t))
  {
    FirstOfB(s);
    hide Half, Answered;
    if e.toA && e.Arrive? && e.message in s.fromB && e.message.Join? {
      FreshJoin(s, e);
    }
  }

  lemma HonestOfA(s: State, m: Message)
    requires Inv(s) && m in s.fromA
    ensures Honest(s.a, s.b, s.fromA, s.fromB, m)
  {
  }

  predicate InWrapper(m: Message) {
    m.Ack? || m.Connect? || m.ConnectAccept? || m.Mak?
  }

  lemma AHearsWrapper(s: State, e: Event)
    requires Inv(s) && Offers(s) && Answered(s) && e.toA && e.Arrive? && e.message in s.fromB && InWrapper(e.message)
    ensures Offers(Step(s, e)) && Answered(Step(s, e))
  {
    hide AllHonest;
    OneHonest(s, e.message);
  }

  lemma BHearsWrapper(s: State, e: Event)
    requires Inv(s) && Offers(s) && Answered(s) && !e.toA && e.Arrive? && e.message in s.fromA && InWrapper(e.message)
    ensures Offers(Step(s, e)) && Answered(Step(s, e))
  {
    hide AllHonest;
    HonestOfA(s, e.message);
  }

  lemma AnsweredStepA(s: State, e: Event)
    requires Inv(s) && Offers(s) && Answered(s) && e.toA
    ensures Offers(Step(s, e)) && Answered(Step(s, e))
  {
    hide AllHonest;
    if e.Arrive? && e.message in s.fromB {
      if InWrapper(e.message) {
        AHearsWrapper(s, e);
      } else {
        hide TakeWrapper;
        OneHonest(s, e.message);
      }
    }
  }

  lemma AnsweredStepB(s: State, e: Event)
    requires Inv(s) && Offers(s) && Answered(s) && !e.toA
    ensures Offers(Step(s, e)) && Answered(Step(s, e))
  {
    hide AllHonest;
    if e.Arrive? && e.message in s.fromA {
      if InWrapper(e.message) {
        BHearsWrapper(s, e);
      } else {
        hide TakeWrapper;
        HonestOfA(s, e.message);
      }
    }
  }

  // ----- How to finish -----

  ghost predicate Ready(s: State) {
    Inv(s) && Offers(s) && Answered(s) && !Hopeless(s)
  }

  function Rank(m: Option<Member>): nat {
    if m.None? then 0 else m.value.state.Rank()
  }

  /** How far the four records are from msCONNECTED. */
  function Rest(s: State): int {
    16 - Rank(s.a.peer) - Rank(s.a.own) - Rank(s.b.peer) - Rank(s.b.own)
  }

  ghost predicate Nearer(s: State, t: State) {
    Ready(t) && Rest(t) < Rest(s)
  }

  lemma StaysReady(s: State, e: Event)
    requires Ready(s) && !Hopeless(Step(s, e))
    ensures Ready(Step(s, e))
  {
    hide Step, Half, Offers, Answered, Hopeless;
    StepKeeps(s, e);
    if e.toA {
      AnsweredStepA(s, e);
    } else {
      AnsweredStepB(s, e);
    }
  }

  /** Before the first ACK: B hears that its JOIN was accepted, B takes the JOIN in
      return, A hears that this was accepted. */
  lemma BeforeAcks(s: State) returns (e: Event)
    requires Ready(s)
    requires s.b.peer.value.state == WaitForAccept || s.b.own.value.state == Empty
             || s.a.peer.value.state == WaitForAccept
    ensures Nearer(s, Step(s, e))
  {
    hide AllHonest;
    var na, ma, nb, mb := s.a.chan.value, s.a.peer.value.mid, s.b.chan.value, s.b.peer.value.mid;
    if s.b.peer.value.state == WaitForAccept {
      e := Arrive(false, JoinAccept(nb, mb, na), 0, 0);
    } else if s.b.own.value.state == Empty {
      e := Arrive(false, Join(ma, na, nb), 0, 0);
    } else {
      e := Arrive(true, JoinAccept(na, ma, nb), 0, 0);
    }
    StaysReady(s, e);
  }

  /** The two ACKs. */
  lemma TheAcks(s: State) returns (e: Event)
    requires Ready(s) && PeerAtLeast(s.a, WaitForAck) && PeerAtLeast(s.b, WaitForAck) && s.b.own.value.state != Empty
    requires s.a.peer.value.state == WaitForAck || s.b.peer.value.state == WaitForAck
    ensures Nearer(s, Step(s, e))
  {
    hide AllHonest;
    var na, ma, nb, mb := s.a.chan.value, s.a.peer.value.mid, s.b.chan.value, s.b.peer.value.mid;
    if s.a.peer.value.state == WaitForAck {
      e := Arrive(true, Ack(mb, na), 0, 0);
    } else {
      e := Arrive(false, Ack(ma, nb), 0, 0);
    }
    StaysReady(s, e);
  }

  ghost predicate BothSidesJoined(s: State) {
    PeerAtLeast(s.a, Joined) && OwnAtLeast(s.a, Joined) && PeerAtLeast(s.b, Joined) && OwnAtLeast(s.b, Joined)
  }

  /** The two CONNECTs, then their answers. */
  lemma TheConnects(s: State) returns (e: Event)
    requires Ready(s) && BothSidesJoined(s) && !AllConnected(s)
    ensures Nearer(s, Step(s, e))
  {
    hide AllHonest;
    var na, ma, nb, mb := s.a.chan.value, s.a.peer.value.mid, s.b.chan.value, s.b.peer.value.mid;
    if s.a.own.value.state == Joined {
      e := Arrive(true, Connect(mb), 0, 0);
    } else if s.b.own.value.state == Joined {
      e := Arrive(false, Connect(ma), 0, 0);
    } else if s.a.peer.value.state == Joined {
      e := Arrive(true, ConnectAccept(mb, na), 0, 0);
    } else {
      e := Arrive(false, ConnectAccept(ma, nb), 0, 0);
    }
    StaysReady(s, e);
  }

  lemma BothAsked(s: State)
    requires Ready(s)
    ensures PeerAtLeast(s.a, WaitForAccept) && PeerAtLeast(s.b, WaitForAccept)
  {
  }

  /** From a state that is not hopeless one message brings the end nearer. */
  lemma OneNearer(s: State) returns (e: Event)
    requires Ready(s) && !AllConnected(s)
    ensures Nearer(s, Step(s, e))
  {
    hide Half, Nearer, Step;
    BothAsked(s);
    if s.b.peer.value.state == WaitForAccept || s.b.own.value.state == Empty || s.a.peer.value.state == WaitForAccept {
      e := BeforeAcks(s);
    } else if s.a.peer.value.state == WaitForAck || s.b.peer.value.state == WaitForAck {
      e := TheAcks(s);
    } else {
      e := TheConnects(s);
    }
  }

  lemma {:induction false} Finishes(s0: State, s: State) returns (t: State)
    requires Leads(s0, s) && Ready(s)
    ensures Leads(s0, t) && AllConnected(t)
    decreases Rest(s)
  {
    hide Leads, Ready, AllConnected, Rest, Step;
    if AllConnected(s) {
      t := s;
    } else {
      var e := OneNearer(s);
      StepLeads(s0, s, e);
      RestPositive(s);
      t := Finishes(s0, Step(s, e));
    }
  }

  lemma RestPositive(s: State)
    ensures Rest(s) >= 0
  {
  }

  lemma {:induction false} RunTold(s: State, es: seq<Event>)
    requires Told(s)
    ensures Told(Run(s, es))
  {
    hide Told, Step;
    if es == [] {
    } else {
      RunTold(s, es[..|es| - 1]);
      ToldStep(Run(s, es[..|es| - 1]), es[|es| - 1]);
    }
  }

  lemma ToldStep(s: State, e: Event)
    requires Told(s)
    ensures Told(Step(s, e))
  {
    hide Half, Answered, Fresh;
    StepKeeps(s, e);
    if Fresh(s.a) {
      FreshStep(s, e);
    } else if Answered(s) {
      if e.toA {
        AnsweredStepA(s, e);
      } else {
        AnsweredStepB(s, e);
      }
    } else {
      CrossedStays(s, e);
      MirrorInv(s);
      MirrorStep(s, e);
      CrossedStays(Mirror(s), e.(toA := !e.toA));
      OffersStay(s, e);
    }
  }

  lemma OffersStay(s: State, e: Event)
    requires Inv(s) && Offers(s) && AskedFirst(s.a) && AskedFirst(s.b)
    ensures Offers(Step(s, e))
  {
    hide AllHonest;
    if !e.toA && e.Arrive? && e.message in s.fromA {
      HonestOfA(s, e.message);
    }
  }

  lemma {:induction false} HopelessRun(s: State, es: seq<Event>)
    requires Inv(s) && Hopeless(s)
    ensures Inv(Run(s, es)) && Hopeless(Run(s, es))
  {
    hide Inv, Hopeless, Step;
    if es == [] {
    } else {
      HopelessRun(s, es[..|es| - 1]);
      StepKeeps(Run(s, es[..|es| - 1]), es[|es| - 1]);
      HopelessStep(Run(s, es[..|es| - 1]), es[|es| - 1]);
    }
  }

  lemma HopelessNotConnected(s: State)
    requires Told(s) && Hopeless(s)
    ensures !AllConnected(s)
  {
    hide Half;
  }

  lemma OfferTold(s0: State, n: uint16, mb: uint16)
    requires Initial(s0) && NumberOf(s0.b, n) != 0
    ensures Told(Offered(s0, n, mb))
  {
    assert Inv(s0);
    StepKeeps(s0, Initiate(false, n, mb));
  }

  /** From every state after a first offer with a channel number, a session can
      still come about, exactly unless both sides asked first, an ACK came before
      the JOIN_ACCEPT or before the JOIN that go with it, or a CONNECT came before
      the ACK. */
  lemma SucceedsExactly(s0: State, n: uint16, mb: uint16, s: State)
    requires Initial(s0) && NumberOf(s0.b, n) != 0 && Leads(Offered(s0, n, mb), s)
    ensures CanConnect(s) <==> !Hopeless(s)
  {
    hide Told, Hopeless, Inv, Step, AllConnected, Leads;
    OfferTold(s0, n, mb);
    ToldAfter(Offered(s0, n, mb), s);
    if Hopeless(s) {
      forall t | Leads(s, t) ensures !AllConnected(t) {
        HopelessAfter(s, t);
      }
    } else {
      LeadsNowhere(s);
      var t := FinishesFrom(s);
    }
  }

  lemma ToldAfter(s: State, t: State)
    requires Told(s) && Leads(s, t)
    ensures Told(t) && Inv(t)
  {
    var es :| t == Run(s, es);
    RunTold(s, es);
  }

  lemma HopelessAfter(s: State, t: State)
    requires Told(s) && Hopeless(s) && Leads(s, t)
    ensures !AllConnected(t)
  {
    hide Told, Hopeless, AllConnected;
    ToldAfter(s, t);
    ToldInv(s);
    var es :| t == Run(s, es);
    HopelessRun(s, es);
    HopelessNotConnected(t);
  }

  lemma ToldInv(s: State)
    requires Told(s)
    ensures Inv(s)
  {
  }

  lemma FinishesFrom(s: State) returns (t: State)
    requires Told(s) && !Hopeless(s)
    ensures Leads(s, t) && AllConnected(t)
  {
    hide Leads, AllConnected, Half, Answered;
    LeadsNowhere(s);
    if Answered(s) {
      t := Finishes(s, s);
    } else {
      FirstOfB(s);
      var e := Arrive(true, Join(s.b.peer.value.mid, s.b.chan.value, 0), 0, 0);
      StepKeeps(s, e);
      FreshJoin(s, e);
      StepLeads(s, s, e);
      NotHopeless(s, e);
      t := Finishes(s, Step(s, e));
    }
  }

  lemma NotHopeless(s: State, e: Event)
    requires Inv(s) && Offers(s) && Fresh(s.a)
    requires var t := Step(s, e);
             && Answered(t) && t.b == s.b && t.a.peer.value.state == WaitForAccept && t.a.own.value.state == WaitForAck
    ensures !Hopeless(Step(s, e))
  {
    FirstOfB(s);
  }

  // ----- The ways to get stuck besides the wedge -----

  /** B takes the JOIN in return too early, then the two messages that go with it in
      the wrong order. */
  lemma TooSoonHappens(s0: State, n: uint16, nb: uint16, mb: uint16, na: uint16, ma: uint16) returns (s: State)
    requires Initial(s0) && NumberOf(s0.b, n) == nb > 0 && NumberOf(s0.a, na) == na
    ensures Leads(Offered(s0, n, mb), s)
    ensures AckedTooSoon(s.b) && !Wedged(s.a) && !Wedged(s.b) && !AskedFirst(s.a)
  {
    hide Leads;
    var s1 := Offered(s0, n, mb);
    LeadsNowhere(s1);
    var waiting := Member(mb, WaitForAccept);
    assert Join(mb, nb, 0) in s1.fromB;
    s := ATakes(s1, s1, Join(mb, nb, 0), na, ma, Records(na, Member(ma, WaitForAccept), nb, Member(mb, WaitForAck)),
                [JoinAccept(nb, mb, na), Join(ma, na, nb)]);
    s := BTakes(s1, s, Join(ma, na, nb), 0, 0, Records(nb, waiting, na, Member(ma, Empty)), [JoinAccept(na, ma, nb)]);
    s := ATakes(s1, s, JoinAccept(na, ma, nb), 0, 0,
                Records(na, Member(ma, WaitForAck), nb, Member(mb, WaitForAck)), [Ack(ma, nb)]);
    s := BTakes(s1, s, JoinAccept(nb, mb, na), 0, 0, Records(nb, Member(mb, WaitForAck), na, Member(ma, Empty)), []);
    s := BTakes(s1, s, Ack(ma, nb), 0, 0, Records(nb, Member(mb, Joined), na, Member(ma, Empty)), []);
  }

  /** A takes B's CONNECT before B's ACK. */
  lemma SilencedHappens(s0: State, n: uint16, nb: uint16, mb: uint16, na: uint16, ma: uint16) returns (s: State)
    requires Initial(s0) && NumberOf(s0.b, n) == nb > 0 && NumberOf(s0.a, na) == na
    ensures Leads(Offered(s0, n, mb), s)
    ensures Silenced(s.a, s.fromA) && !Wedged(s.a) && !Wedged(s.b) && !AskedFirst(s.a)
  {
    hide Leads, Told;
    var s1 := Offered(s0, n, mb);
    s := Opening(s0, n, nb, mb, na, ma);
    s := ATakes(s1, s, JoinAccept(na, ma, nb), 0, 0,
                Records(na, Member(ma, WaitForAck), nb, Member(mb, WaitForAck)), [Ack(ma, nb)]);
    s := BTakes(s1, s, Ack(ma, nb), 0, 0, Records(nb, Member(mb, Joined), na, Member(ma, Joined)),
                Solicited(s.b, Ack(ma, nb)) + [Connect(mb)]);
    s := ATakes(s1, s, Connect(mb), 0, 0, Records(na, Member(ma, WaitForAck), nb, Member(mb, Connected)),
                Solicited(s.a, Connect(mb)) + [ConnectAccept(ma, nb)]);
    OfferTold(s0, n, mb);
    ToldAfter(s1, s);
    if Connect(ma) in s.fromA {
      HonestOfA(s, Connect(ma));
    }
  }
}
