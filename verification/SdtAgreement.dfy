/** What the two sides of a session agree on, over every run in which the
    network loses, duplicates and reorders the handshake messages. */
module SdtAgreement {
  import opened Word
  import opened Wrappers
  import opened SdtJoin

  /** `fromA` and `fromB` hold every message ever sent; any of them may arrive at
      any time, any number of times, or never. */
  datatype State = State(a: Side, b: Side, fromA: set<Message>, fromB: set<Message>)

  /** `toA` names the side that acts. `number` and `mid` are the channel number
      and MID the side would assign if it has to. */
  datatype Event =
    | Initiate(toA: bool, number: uint16, mid: uint16)
    | Arrive(toA: bool, message: Message, number: uint16, mid: uint16)
    | SendMak(toA: bool, first: uint16, last: uint16)

  /** The two components have no session yet; either may already lead a channel. */
  predicate Fresh(s: Side) {
    s.peer.None? && s.peerChan.None? && s.own.None?
  }

  predicate Initial(s: State) {
    Fresh(s.a) && Fresh(s.b) && s.fromA == {} && s.fromB == {}
  }

  function Mirror(s: State): State {
    State(s.b, s.a, s.fromB, s.fromA)
  }

  function SentSet(ms: seq<Message>): set<Message> {
    set m | m in ms
  }

  /** One step of side A. */
  function StepA(s: State, e: Event): State {
    match e
    case Initiate(_, number, mid) =>
      var o := StartJoin(s.a, number, mid);
      s.(a := o.side, fromA := s.fromA + SentSet(o.sent))
    case Arrive(_, m, number, mid) =>
      if m in s.fromB then
        var o := Take(s.a, m, number, mid);
        s.(a := o.side, fromA := s.fromA + SentSet(o.sent))
      else s
    case SendMak(_, first, last) =>
      if s.a.chan.Some? then s.(fromA := s.fromA + {Mak(first, last)}) else s
  }

  function Step(s: State, e: Event): State {
    if e.toA then StepA(s, e) else Mirror(StepA(Mirror(s), e))
  }

  function Run(s: State, es: seq<Event>): State {
    if es == [] then s else Step(Run(s, es[..|es| - 1]), es[|es| - 1])
  }

  /** Some run takes `s` to `t`. */
  ghost predicate Leads(s: State, t: State) {
    exists es :: t == Run(s, es)
  }

  ghost predicate Reachable(s: State) {
    exists s0 :: Initial(s0) && Leads(s0, s)
  }

  predicate PeerAtLeast(s: Side, floor: MemberState) {
    s.peer.Some? && s.peer.value.state.AtLeast(floor)
  }

  predicate OwnAtLeast(s: Side, floor: MemberState) {
    s.own.Some? && s.own.value.state.AtLeast(floor)
  }

  /** `x` has learned from `y` its own MID and y's channel number. */
  predicate Linked(x: Side, y: Side) {
    && x.own.Some? && PeerAtLeast(y, WaitForAccept) && y.chan.Some?
    && x.own.value.mid == y.peer.value.mid
    && x.peerChan == y.chan
  }

  /** Both channel numbers and both MIDs are the same on both sides. */
  predicate Agree(x: Side, y: Side) {
    Linked(x, y) && Linked(y, x)
  }

  /** The ACK that answers a JOIN_ACCEPT overtook the JOIN_ACCEPT: this side
      holds itself joined while still waiting for the other to accept. */
  predicate Wedged(s: Side) {
    OwnAtLeast(s, Joined) && s.peer.Some? && s.peer.value.state == WaitForAccept
  }

  // ----- What every step keeps -----

  predicate Shape(x: Side) {
    && (x.own.Some? <==> x.peerChan.Some?)
    && (x.own.Some? ==> x.known && PeerAtLeast(x, WaitForAccept))
    && (x.peer.Some? ==> x.chan.Some?)
    && (PeerAtLeast(x, WaitForAccept) ==> x.own.Some?)
  }

  /** x asked first, with the channel number 0 that the other cannot answer. */
  predicate NumberlessOffer(x: Side, outX: set<Message>) {
    x.chan == Some(0) && x.peer.Some? && Join(x.peer.value.mid, 0, 0) in outX
  }

  predicate Progress(x: Side, y: Side, outX: set<Message>) {
    && (x.peerChan.Some? && x.peerChan.value != 0 ==> Linked(x, y))
    && (OwnAtLeast(x, WaitForAck) ==> Linked(x, y) && !NumberlessOffer(x, outX))
    && (PeerAtLeast(x, WaitForAck) ==> Linked(y, x) || NumberlessOffer(x, outX))
    && (PeerAtLeast(x, Joined) || OwnAtLeast(x, Joined) ==> Agree(x, y) && OwnAtLeast(y, WaitForAck))
    && (PeerAtLeast(x, Joined) || OwnAtLeast(x, Joined) ==> PeerAtLeast(y, WaitForAck) || Wedged(y))
    && (OwnAtLeast(x, Connected) ==> PeerAtLeast(y, Joined) && OwnAtLeast(y, Joined))
    && (PeerAtLeast(x, Connected) ==> OwnAtLeast(x, Joined) && OwnAtLeast(y, Connected))
  }

  /** What a message sent by `x` says about the sender and the receiver. */
  predicate Honest(x: Side, y: Side, outX: set<Message>, outY: set<Message>, m: Message) {
    match m
    case Join(mid, chan, reciprocal) =>
      && PeerAtLeast(x, WaitForAccept) && x.peer.value.mid == mid && x.chan == Some(chan)
      && (reciprocal != 0 ==> y.chan == Some(reciprocal) && PeerAtLeast(y, WaitForAccept)
                              && OwnAtLeast(x, WaitForAck))
    case JoinAccept(chan, mid, reciprocal) =>
      && PeerAtLeast(y, WaitForAccept) && y.peer.value.mid == mid && y.chan == Some(chan)
      && ((Linked(x, y) && x.chan == Some(reciprocal)) || NumberlessOffer(y, outY))
    case JoinRefuse(_, _) => false
    case Ack(mid, association) =>
      && Agree(x, y) && OwnAtLeast(x, WaitForAck) && (PeerAtLeast(x, WaitForAck) || Wedged(x))
      && mid == x.peer.value.mid && Some(association) == x.peerChan
    case Connect(mid) =>
      PeerAtLeast(x, Joined) && OwnAtLeast(x, Joined) && mid == x.peer.value.mid
    case ConnectAccept(mid, association) =>
      && OwnAtLeast(x, Connected) && PeerAtLeast(y, Joined) && OwnAtLeast(y, Joined)
      && x.peer.Some? && mid == x.peer.value.mid && Some(association) == x.peerChan
    case Mak(_, _) => true
  }

  ghost predicate AllHonest(x: Side, y: Side, outX: set<Message>, outY: set<Message>) {
    forall m :: m in outX ==> Honest(x, y, outX, outY, m)
  }

  ghost predicate Half(x: Side, y: Side, outX: set<Message>, outY: set<Message>) {
    Shape(x) && Progress(x, y, outX) && AllHonest(x, y, outX, outY)
  }

  ghost predicate Inv(s: State) {
    Half(s.a, s.b, s.fromA, s.fromB) && Half(s.b, s.a, s.fromB, s.fromA)
  }

  lemma InitiateKeeps(s: State, e: Event)
    requires Inv(s) && e.Initiate?
    ensures Inv(StepA(s, e))
  {
  }

  lemma MakKeeps(s: State, e: Event)
    requires Inv(s) && e.SendMak?
    ensures Inv(StepA(s, e))
  {
  }

  lemma ReciprocalJoinKeeps(s: State, e: Event)
    requires Inv(s) && e.Arrive? && e.message.Join? && e.message.reciprocal != 0 && e.message in s.fromB
    ensures Inv(StepA(s, e))
  {
    assert Honest(s.b, s.a, s.fromB, s.fromA, e.message);
  }

  lemma FirstJoinKeeps(s: State, e: Event)
    requires Inv(s) && e.Arrive? && e.message.Join? && e.message.reciprocal == 0 && e.message in s.fromB
    ensures Inv(StepA(s, e))
  {
    assert Honest(s.b, s.a, s.fromB, s.fromA, e.message);
  }

  // ----- Steps in which only the states of the two records move, and upwards -----

  predicate MemberGrows(m: Option<Member>, m': Option<Member>) {
    if m.None? then m'.None?
    else m'.Some? && m'.value.mid == m.value.mid && m'.value.state.AtLeast(m.value.state)
  }

  predicate Grows(x: Side, x': Side) {
    && x'.known == x.known && x'.chan == x.chan && x'.peerChan == x.peerChan
    && MemberGrows(x.peer, x'.peer) && MemberGrows(x.own, x'.own)
  }

  /** What a message says stays true while the records of its sender grow, */
  lemma SenderGrows(x: Side, x': Side, y: Side, outX: set<Message>, outX': set<Message>, outY: set<Message>, m: Message)
    requires Grows(x, x') && outX <= outX' && Honest(x, y, outX, outY, m)
    ensures Honest(x', y, outX', outY, m)
  {
  }

  /** or those of its receiver. */
  lemma ReceiverGrows(x: Side, y: Side, y': Side, outX: set<Message>, outY: set<Message>, outY': set<Message>,
      m: Message)
    requires Grows(y, y') && outY <= outY' && Honest(x, y, outX, outY, m)
    ensures Honest(x, y', outX, outY', m)
  {
  }

  /** Side A takes a message that makes its records grow. */
  ghost predicate Upwards(s: State, o: Outcome) {
    var out := s.fromA + SentSet(o.sent);
    && Grows(s.a, o.side) && Shape(o.side)
    && Progress(o.side, s.b, out) && Progress(s.b, o.side, s.fromB)
    && forall r :: r in o.sent ==> Honest(o.side, s.b, out, s.fromB, r)
  }

  lemma UpwardsKeeps(s: State, o: Outcome)
    requires Inv(s) && Upwards(s, o)
    ensures Inv(s.(a := o.side, fromA := s.fromA + SentSet(o.sent)))
  {
    hide Grows, Progress, Shape, Honest;
    var out := s.fromA + SentSet(o.sent);
    assert Grows(s.a, o.side);
    forall m | m in out ensures Honest(o.side, s.b, out, s.fromB, m) {
      if m in s.fromA {
        SenderGrows(s.a, o.side, s.b, s.fromA, out, s.fromB, m);
      }
    }
    forall m | m in s.fromB ensures Honest(s.b, o.side, s.fromB, out, m) {
      ReceiverGrows(s.b, s.a, o.side, s.fromB, s.fromA, out, m);
    }
  }

  lemma JoinAcceptKeeps(s: State, e: Event)
    requires Inv(s) && e.Arrive? && e.message.JoinAccept? && e.message in s.fromB
    ensures Inv(StepA(s, e))
  {
    assert Honest(s.b, s.a, s.fromB, s.fromA, e.message);
    UpwardsKeeps(s, TakeJoinAccept(s.a, e.message));
  }

  /** Answering a wrapper's request for acknowledgement. */
  lemma SolicitedHonest(s: State, m: Message)
    requires Inv(s)
    ensures SolicitedAcks(s, m)
  {
  }

  ghost predicate SolicitedAcks(s: State, m: Message) {
    forall r :: r in Solicited(s.a, m) ==> r.Ack? && Honest(s.a, s.b, s.fromA, s.fromB, r)
  }

  /** What the message in a wrapper does, leaving out the acknowledgement. */
  ghost predicate Answers(s: State, m: Message, o: Outcome) {
    && Take(s.a, m, 0, 0) == Outcome(o.side, Solicited(s.a, m) + o.sent)
    && Grows(s.a, o.side) && Shape(o.side)
    && (forall r :: r in o.sent ==> !r.Join? && Honest(o.side, s.b, s.fromA, s.fromB, r))
    && Progress(o.side, s.b, s.fromA) && Progress(s.b, o.side, s.fromB)
  }

  lemma AnswersKeep(s: State, e: Event, o: Outcome)
    requires Inv(s) && e.Arrive? && e.message in s.fromB
    requires e.message.Ack? || e.message.Connect? || e.message.ConnectAccept?
    requires Answers(s, e.message, o)
    ensures Inv(StepA(s, e))
  {
    hide Grows, Progress, Shape, Honest, Solicited, TakeAck, TakeConnect, TakeConnectAccept, Inv;
    SolicitedHonest(s, e.message);
    var sent := Solicited(s.a, e.message) + o.sent;
    var out := s.fromA + SentSet(sent);
    forall r | r in sent ensures Honest(o.side, s.b, out, s.fromB, r) {
      if r in o.sent {
        SameGrows(o.side);
        SenderGrows(o.side, o.side, s.b, s.fromA, out, s.fromB, r);
      } else {
        SenderGrows(s.a, o.side, s.b, s.fromA, out, s.fromB, r);
      }
    }
    NoNewOffer(o.side, s.b, s.fromA, sent);
    UpwardsKeeps(s, Outcome(o.side, sent));
  }

  lemma SameGrows(x: Side)
    ensures Grows(x, x)
  {
  }

  lemma NoNewOffer(x: Side, y: Side, out: set<Message>, sent: seq<Message>)
    requires Progress(x, y, out) && forall r :: r in sent ==> !r.Join?
    ensures Progress(x, y, out + SentSet(sent))
  {
  }

  lemma AckKeeps(s: State, e: Event)
    requires Inv(s) && e.Arrive? && e.message.Ack? && e.message in s.fromB
    ensures Inv(StepA(s, e))
  {
    assert Honest(s.b, s.a, s.fromB, s.fromA, e.message);
    AnswersKeep(s, e, if Addressed(s.a, e.message.mid, e.message.association) then TakeAck(s.a) else Outcome(s.a, []));
  }

  lemma ConnectKeeps(s: State, e: Event)
    requires Inv(s) && e.Arrive? && e.message.Connect? && e.message in s.fromB
    ensures Inv(StepA(s, e))
  {
    assert Honest(s.b, s.a, s.fromB, s.fromA, e.message);
    AnswersKeep(s, e, if Addressed(s.a, e.message.mid, 0) then TakeConnect(s.a) else Outcome(s.a, []));
  }

  lemma ConnectAcceptKeeps(s: State, e: Event)
    requires Inv(s) && e.Arrive? && e.message.ConnectAccept? && e.message in s.fromB
    ensures Inv(StepA(s, e))
  {
    assert Honest(s.b, s.a, s.fromB, s.fromA, e.message);
    AnswersKeep(s, e, if Addressed(s.a, e.message.mid, e.message.association) then TakeConnectAccept(s.a)
                      else Outcome(s.a, []));
  }

  lemma MakArrivalKeeps(s: State, e: Event)
    requires Inv(s) && e.Arrive? && (e.message.Mak? || e.message.JoinRefuse?) && e.message in s.fromB
    ensures Inv(StepA(s, e))
  {
    assert Honest(s.b, s.a, s.fromB, s.fromA, e.message);
    SolicitedHonest(s, e.message);
  }

  lemma StepKeeps(s: State, e: Event)
    requires Inv(s)
    ensures Inv(Step(s, e))
  {
    var s := if e.toA then s else Mirror(s);
    if e.Initiate? {
      InitiateKeeps(s, e);
    } else if e.SendMak? {
      MakKeeps(s, e);
    } else if e.message in s.fromB {
      if e.message.Join? && e.message.reciprocal == 0 {
        FirstJoinKeeps(s, e);
      } else if e.message.Join? {
        ReciprocalJoinKeeps(s, e);
      } else if e.message.JoinAccept? {
        JoinAcceptKeeps(s, e);
      } else if e.message.Ack? {
        AckKeeps(s, e);
      } else if e.message.Connect? {
        ConnectKeeps(s, e);
      } else if e.message.ConnectAccept? {
        ConnectAcceptKeeps(s, e);
      } else {
        MakArrivalKeeps(s, e);
      }
    }
  }

  lemma {:induction false} RunKeeps(s0: State, es: seq<Event>)
    requires Initial(s0)
    ensures Inv(Run(s0, es))
  {
    if es == [] {
    } else {
      RunKeeps(s0, es[..|es| - 1]);
      StepKeeps(Run(s0, es[..|es| - 1]), es[|es| - 1]);
    }
  }

  lemma ReachableKeeps(s: State)
    requires Reachable(s)
    ensures Inv(s)
  {
    var s0 :| Initial(s0) && Leads(s0, s);
    var es :| s == Run(s0, es);
    RunKeeps(s0, es);
  }

  lemma LeadsNowhere(s: State)
    ensures Leads(s, s)
  {
    assert s == Run(s, []);
  }

  lemma StepLeads(s: State, t: State, e: Event)
    requires Leads(s, t)
    ensures Leads(s, Step(t, e))
  {
    var es :| t == Run(s, es);
    assert (es + [e])[..|es + [e]| - 1] == es;
    assert Step(t, e) == Run(s, es + [e]);
  }

  // ----- Join agreement -----

  /** Once a side holds the other, or itself, joined, both sides agree on both
      channel numbers and both MIDs, and the other side has taken the JOIN. The
      other side's two records are then at least WaitForAck exactly when it is
      not wedged. */
  lemma JoinAgreement(s: State)
    requires Reachable(s)
    ensures Secured(s.a, s.b) && Secured(s.b, s.a)
  {
    ReachableKeeps(s);
  }

  predicate Secured(x: Side, y: Side) {
    PeerAtLeast(x, Joined) || OwnAtLeast(x, Joined) ==>
      Agree(x, y) && OwnAtLeast(y, WaitForAck) && (PeerAtLeast(y, WaitForAck) <==> !Wedged(y))
  }

  /** A record becomes Connected only through a CONNECT whose sender has both its
      records joined, or through the answer to one. */
  lemma ConnectedOnlyIfJoined(s: State, e: Event)
    requires Reachable(s) && e.toA
    ensures OwnAtLeast(Step(s, e).a, Connected) && !OwnAtLeast(s.a, Connected) ==>
              && e.Arrive? && e.message.Connect? && e.message in s.fromB
              && PeerAtLeast(s.b, Joined) && OwnAtLeast(s.b, Joined)
    ensures PeerAtLeast(Step(s, e).a, Connected) && !PeerAtLeast(s.a, Connected) ==>
              && e.Arrive? && e.message.ConnectAccept? && e.message in s.fromB
              && PeerAtLeast(s.a, Joined) && OwnAtLeast(s.a, Joined) && OwnAtLeast(s.b, Connected)
    ensures forall m :: m in Step(s, e).fromA && m !in s.fromA && m.Connect? ==>
              PeerAtLeast(Step(s, e).a, Joined) && OwnAtLeast(Step(s, e).a, Joined)
  {
    ReachableKeeps(s);
    StepKeeps(s, e);
    if e.Arrive? && e.message in s.fromB {
      assert Honest(s.b, s.a, s.fromB, s.fromA, e.message);
    }
  }

  /** No JOIN is ever refused. */
  lemma NeverRefused(s: State)
    requires Reachable(s)
    ensures forall m :: m in s.fromA || m in s.fromB ==> !m.JoinRefuse?
  {
    ReachableKeeps(s);
  }

  // ----- The wedge -----

  /** The guard of the step that wedges side A: an ACK taken while A waits for
      its JOIN to be accepted and for the other's ACK. */
  predicate AckOvertakes(s: State, e: Event) {
    && e.toA && e.Arrive? && e.message.Ack? && e.message in s.fromB
    && s.a.peer.Some? && s.a.peer.value.state == WaitForAccept
    && s.a.own.Some? && s.a.own.value.state == WaitForAck
  }

  /** A side becomes wedged by exactly that step, and then stays wedged: no later
      message, not even the overtaken JOIN_ACCEPT, frees it. */
  lemma WedgedExactly(s: State, e: Event)
    requires Reachable(s)
    ensures Wedged(Step(s, e).a) <==> Wedged(s.a) || AckOvertakes(s, e)
  {
    ReachableKeeps(s);
    if e.toA && e.Arrive? && e.message in s.fromB {
      WedgedByArrival(s, e);
    }
  }

  lemma WedgedByArrival(s: State, e: Event)
    requires Inv(s) && e.toA && e.Arrive? && e.message in s.fromB
    ensures Wedged(Step(s, e).a) <==> Wedged(s.a) || AckOvertakes(s, e)
  {
    hide AllHonest;
    OneHonest(s, e.message);
  }

  lemma OneHonest(s: State, m: Message)
    requires Inv(s) && m in s.fromB
    ensures Honest(s.b, s.a, s.fromB, s.fromA, m)
  {
  }

  /** In some step of the run side A took an ACK too early. */
  predicate Overtaken(s0: State, es: seq<Event>) {
    es != [] && (Overtaken(s0, es[..|es| - 1]) || AckOvertakes(Run(s0, es[..|es| - 1]), es[|es| - 1]))
  }

  lemma {:induction false} WedgedIffOvertaken(s0: State, es: seq<Event>)
    requires Initial(s0)
    ensures Wedged(Run(s0, es).a) <==> Overtaken(s0, es)
  {
    if es == [] {
    } else {
      WedgedIffOvertaken(s0, es[..|es| - 1]);
      WedgedExactly(Run(s0, es[..|es| - 1]), es[|es| - 1]);
    }
  }

  /** The run with the two sides exchanged. */
  function Flipped(es: seq<Event>): (fs: seq<Event>)
    ensures |fs| == |es|
  {
    if es == [] then [] else Flipped(es[..|es| - 1]) + [es[|es| - 1].(toA := !es[|es| - 1].toA)]
  }

  lemma MirrorStep(s: State, e: Event)
    ensures Step(Mirror(s), e.(toA := !e.toA)) == Mirror(Step(s, e))
  {
    hide StartJoin, Take;
  }

  lemma {:induction false} MirrorRun(s0: State, es: seq<Event>)
    ensures Run(Mirror(s0), Flipped(es)) == Mirror(Run(s0, es))
  {
    hide Step, Mirror;
    if es == [] {
    } else {
      MirrorRun(s0, es[..|es| - 1]);
      MirrorStep(Run(s0, es[..|es| - 1]), es[|es| - 1]);
      assert Flipped(es)[..|es| - 1] == Flipped(es[..|es| - 1]);
    }
  }

  /** Join agreement for whole runs: the other side's two records wait for an ACK
      at least, exactly if it never took an ACK before the JOIN_ACCEPT. */
  lemma RunAgreement(s0: State, es: seq<Event>)
    requires Initial(s0)
    ensures var s := Run(s0, es);
            && (PeerAtLeast(s.b, Joined) || OwnAtLeast(s.b, Joined) ==>
                  Agree(s.b, s.a) && OwnAtLeast(s.a, WaitForAck)
                    && (PeerAtLeast(s.a, WaitForAck) <==> !Overtaken(s0, es)))
            && (PeerAtLeast(s.a, Joined) || OwnAtLeast(s.a, Joined) ==>
                  Agree(s.a, s.b) && OwnAtLeast(s.b, WaitForAck)
                  && (PeerAtLeast(s.b, WaitForAck) <==> !Overtaken(Mirror(s0), Flipped(es))))
  {
    assert Leads(s0, Run(s0, es));
    JoinAgreement(Run(s0, es));
    WedgedIffOvertaken(s0, es);
    WedgedIffOvertaken(Mirror(s0), Flipped(es));
    MirrorRun(s0, es);
  }

  // ----- How a handshake ends -----

  /** Side A takes a message, with the outcome given. */
  lemma ATakes(s0: State, s: State, m: Message, number: uint16, mid: uint16, side: Side, sent: seq<Message>)
    returns (s': State)
    requires Leads(s0, s) && m in s.fromB && Take(s.a, m, number, mid) == Outcome(side, sent)
    ensures Leads(s0, s') && s'.a == side && s'.b == s.b && s'.fromB == s.fromB
    ensures s.fromA <= s'.fromA && forall r :: r in sent ==> r in s'.fromA
  {
    s' := Step(s, Arrive(true, m, number, mid));
    StepLeads(s0, s, Arrive(true, m, number, mid));
  }

  lemma BTakes(s0: State, s: State, m: Message, number: uint16, mid: uint16, side: Side, sent: seq<Message>)
    returns (s': State)
    requires Leads(s0, s) && m in s.fromA && Take(s.b, m, number, mid) == Outcome(side, sent)
    ensures Leads(s0, s') && s'.b == side && s'.a == s.a && s'.fromA == s.fromA
    ensures s.fromB <= s'.fromB && forall r :: r in sent ==> r in s'.fromB
  {
    s' := Step(s, Arrive(false, m, number, mid));
    StepLeads(s0, s, Arrive(false, m, number, mid));
  }

  function Records(chan: uint16, peer: Member, peerChan: uint16, own: Member): Side {
    Side(true, Some(chan), Some(peer), Some(peerChan), Some(own))
  }

  /** The channel number a component uses: its channel's, or the one assigned. */
  function NumberOf(x: Side, number: uint16): uint16 {
    if x.chan.Some? then x.chan.value else number
  }

  /** B's first JOIN is on its way. */
  function Offered(s0: State, n: uint16, mb: uint16): State {
    Step(s0, Initiate(false, n, mb))
  }

  /** The first half of a handshake that B starts: both JOINs have been taken
      and B has acknowledged, A has heard nothing of it yet. */
  lemma Opening(s0: State, n: uint16, nb: uint16, mb: uint16, na: uint16, ma: uint16) returns (s: State)
    requires Initial(s0) && NumberOf(s0.b, n) == nb > 0 && NumberOf(s0.a, na) == na
    ensures Leads(Offered(s0, n, mb), s)
    ensures s.a == Records(na, Member(ma, WaitForAccept), nb, Member(mb, WaitForAck))
    ensures s.b == Records(nb, Member(mb, WaitForAck), na, Member(ma, WaitForAck))
    ensures JoinAccept(na, ma, nb) in s.fromB && Ack(mb, na) in s.fromB
  {
    hide Leads;
    var s1 := Offered(s0, n, mb);
    LeadsNowhere(s1);
    assert Join(mb, nb, 0) in s1.fromB;
    s := ATakes(s1, s1, Join(mb, nb, 0), na, ma, Records(na, Member(ma, WaitForAccept), nb, Member(mb, WaitForAck)),
                [JoinAccept(nb, mb, na), Join(ma, na, nb)]);
    s := BTakes(s1, s, JoinAccept(nb, mb, na), 0, 0, Records(nb, Member(mb, WaitForAck), 0, Member(0, Empty)), []);
    s := BTakes(s1, s, Join(ma, na, nb), 0, 0, Records(nb, Member(mb, WaitForAck), na, Member(ma, WaitForAck)),
                [JoinAccept(na, ma, nb), Ack(mb, na)]);
  }

  /** One way in which it goes wrong: the ACK overtakes the JOIN_ACCEPT on the way
      to side A, and the answer to a MAK then makes B hold A joined while A
      waits for ever. */
  lemma WedgeHappens(s0: State, n: uint16, nb: uint16, mb: uint16, na: uint16, ma: uint16) returns (s: State)
    requires Initial(s0) && NumberOf(s0.b, n) == nb > 0 && NumberOf(s0.a, na) == na && mb > 0
    ensures Leads(Offered(s0, n, mb), s)
    ensures PeerAtLeast(s.b, Joined) && OwnAtLeast(s.b, Joined) && Wedged(s.a)
  {
    hide Leads;
    var s1 := Offered(s0, n, mb);
    s := Opening(s0, n, nb, mb, na, ma);
    var stuck := Records(na, Member(ma, WaitForAccept), nb, Member(mb, Joined));
    s := ATakes(s1, s, Ack(mb, na), 0, 0, stuck, []);
    s := ATakes(s1, s, JoinAccept(na, ma, nb), 0, 0, stuck, []);
    StepLeads(s1, s, SendMak(false, 1, 0xFFFF));
    s := Step(s, SendMak(false, 1, 0xFFFF));
    s := ATakes(s1, s, Mak(1, 0xFFFF), 0, 0, stuck, [Ack(ma, nb)]);
    s := BTakes(s1, s, Ack(ma, nb), 0, 0, Records(nb, Member(mb, Joined), na, Member(ma, Joined)),
                Solicited(s.b, Ack(ma, nb)) + [Connect(mb)]);
  }

  /** The second half, in order: both sides hold both records joined. */
  lemma BothJoined(s0: State, n: uint16, nb: uint16, mb: uint16, na: uint16, ma: uint16) returns (s: State)
    requires Initial(s0) && NumberOf(s0.b, n) == nb > 0 && NumberOf(s0.a, na) == na
    ensures Leads(Offered(s0, n, mb), s)
    ensures s.a == Records(na, Member(ma, Joined), nb, Member(mb, Joined))
    ensures s.b == Records(nb, Member(mb, Joined), na, Member(ma, Joined))
    ensures Connect(ma) in s.fromA && Connect(mb) in s.fromB
  {
    hide Leads;
    var s1 := Offered(s0, n, mb);
    s := Opening(s0, n, nb, mb, na, ma);
    s := ATakes(s1, s, JoinAccept(na, ma, nb), 0, 0,
                Records(na, Member(ma, WaitForAck), nb, Member(mb, WaitForAck)), [Ack(ma, nb)]);
    s := ATakes(s1, s, Ack(mb, na), 0, 0, Records(na, Member(ma, Joined), nb, Member(mb, Joined)),
                Solicited(s.a, Ack(mb, na)) + [Connect(ma)]);
    s := BTakes(s1, s, Ack(ma, nb), 0, 0, Records(nb, Member(mb, Joined), na, Member(ma, Joined)),
                Solicited(s.b, Ack(ma, nb)) + [Connect(mb)]);
  }

  /** Taken in order, the messages of a handshake end with all four records
      connected, whatever the numbers and MIDs are, as long as the first channel
      number is not 0. */
  lemma HandshakeCompletes(s0: State, n: uint16, nb: uint16, mb: uint16, na: uint16, ma: uint16) returns (s: State)
    requires Initial(s0) && NumberOf(s0.b, n) == nb > 0 && NumberOf(s0.a, na) == na
    ensures Leads(Offered(s0, n, mb), s)
    ensures s.a == Records(na, Member(ma, Connected), nb, Member(mb, Connected))
    ensures s.b == Records(nb, Member(mb, Connected), na, Member(ma, Connected))
  {
    hide Leads;
    var s1 := Offered(s0, n, mb);
    s := BothJoined(s0, n, nb, mb, na, ma);
    s := ATakes(s1, s, Connect(mb), 0, 0, Records(na, Member(ma, Joined), nb, Member(mb, Connected)),
                Solicited(s.a, Connect(mb)) + [ConnectAccept(ma, nb)]);
    s := BTakes(s1, s, Connect(ma), 0, 0, Records(nb, Member(mb, Joined), na, Member(ma, Connected)),
                Solicited(s.b, Connect(ma)) + [ConnectAccept(mb, na)]);
    s := ATakes(s1, s, ConnectAccept(mb, na), 0, 0, Records(na, Member(ma, Connected), nb, Member(mb, Connected)),
                Solicited(s.a, ConnectAccept(mb, na)) + []);
    s := BTakes(s1, s, ConnectAccept(ma, nb), 0, 0, Records(nb, Member(mb, Connected), na, Member(ma, Connected)),
                Solicited(s.b, ConnectAccept(ma, nb)) + []);
  }

  ghost predicate AnyoneJoined(s: State) {
    PeerAtLeast(s.a, Joined) || OwnAtLeast(s.a, Joined) || PeerAtLeast(s.b, Joined) || OwnAtLeast(s.b, Joined)
  }

  ghost predicate AllConnected(s: State) {
    PeerAtLeast(s.a, Connected) && OwnAtLeast(s.a, Connected) && PeerAtLeast(s.b, Connected)
      && OwnAtLeast(s.b, Connected)
  }

  /** A first offer can succeed exactly if the channel it comes from has a number
      other than 0: then it can be completed, and otherwise nothing that happens
      afterwards ever sends an ACK or joins anyone. */
  lemma OfferSucceedsExactly(s0: State, n: uint16, mb: uint16)
    requires Initial(s0)
    ensures (exists s :: Leads(Offered(s0, n, mb), s) && AllConnected(s)) <==> NumberOf(s0.b, n) != 0
    ensures (exists s :: Leads(Offered(s0, n, mb), s) && AnyoneJoined(s)) <==> NumberOf(s0.b, n) != 0
    ensures (exists s :: Leads(Offered(s0, n, mb), s) && AckSent(s)) <==> NumberOf(s0.b, n) != 0
  {
    var s1 := Offered(s0, n, mb);
    if NumberOf(s0.b, n) != 0 {
      var half := Opening(s0, n, NumberOf(s0.b, n), mb, NumberOf(s0.a, 1), 1);
      assert Ack(mb, NumberOf(s0.a, 1)) in half.fromA + half.fromB;
      var s := HandshakeCompletes(s0, n, NumberOf(s0.b, n), mb, NumberOf(s0.a, 1), 1);
      assert AllConnected(s) && AnyoneJoined(s);
    } else {
      forall s | Leads(s1, s) ensures !AnyoneJoined(s) && !AckSent(s) {
        NumberlessNeverJoins(s0, n, mb, s);
      }
    }
  }

  ghost predicate AckSent(s: State) {
    exists m :: m in s.fromA + s.fromB && m.Ack?
  }

  /** B has asked with channel number 0, and nobody has got any further. */
  ghost predicate Numberless(s: State) {
    && Inv(s) && AskedFirst(s.b) && s.b.chan == Some(0)
    && (s.a.own.Some? ==> s.a.own.value.state == Empty)
    && OnlyOffers(s.fromA) && OnlyOffers(s.fromB)
    && forall m :: m in s.fromB && m.Join? ==> m.chan == 0
  }

  lemma NumberlessStepA(s: State, e: Event)
    requires Numberless(s) && e.toA
    ensures Numberless(Step(s, e))
  {
    hide Progress, Shape;
    StepKeeps(s, e);
    if e.Arrive? && e.message in s.fromB {
      assert Honest(s.b, s.a, s.fromB, s.fromA, e.message);
    }
  }

  lemma NumberlessStepB(s: State, e: Event)
    requires Numberless(s) && !e.toA
    ensures Numberless(Step(s, e))
  {
    hide Progress;
    StepKeeps(s, e);
    if e.Arrive? && e.message in s.fromA {
      assert Honest(s.a, s.b, s.fromA, s.fromB, e.message);
    }
  }

  lemma {:induction false} NumberlessRun(s: State, es: seq<Event>)
    requires Numberless(s)
    ensures Numberless(Run(s, es))
  {
    if es == [] {
    } else {
      NumberlessRun(s, es[..|es| - 1]);
      if es[|es| - 1].toA {
        NumberlessStepA(Run(s, es[..|es| - 1]), es[|es| - 1]);
      } else {
        NumberlessStepB(Run(s, es[..|es| - 1]), es[|es| - 1]);
      }
    }
  }

  /** After a first offer with channel number 0 nobody ever sends an ACK, and
      nobody ever holds anybody joined. */
  lemma NumberlessNeverJoins(s0: State, n: uint16, mb: uint16, s: State)
    requires Initial(s0) && NumberOf(s0.b, n) == 0 && Leads(Offered(s0, n, mb), s)
    ensures !AnyoneJoined(s) && !AckSent(s)
  {
    assert Inv(s0);
    StepKeeps(s0, Initiate(false, n, mb));
    var es :| s == Run(Offered(s0, n, mb), es);
    NumberlessRun(Offered(s0, n, mb), es);
    assert Inv(s);
  }

  // ----- Crossing joins -----

  predicate AskedFirst(x: Side) {
    PeerAtLeast(x, WaitForAccept) && x.own.Some? && x.own.value.state == Empty
  }

  ghost predicate OnlyOffers(out: set<Message>) {
    forall m :: m in out ==> (m.Join? && m.reciprocal == 0) || m.JoinAccept? || m.Mak?
  }

  ghost predicate Crossed(s: State) {
    Inv(s) && AskedFirst(s.a) && AskedFirst(s.b) && OnlyOffers(s.fromA) && OnlyOffers(s.fromB)
  }

  /** When both components ask before either has heard the other, the session is
      never made: each accepts the other's JOIN, neither sends an ACK. */
  lemma {:induction false} CrossingNeverJoins(s0: State, n1: uint16, m1: uint16, n2: uint16, m2: uint16, es: seq<Event>)
    requires Initial(s0)
    ensures var s := Run(Step(Step(s0, Initiate(true, n1, m1)), Initiate(false, n2, m2)), es);
            Crossed(s) && !PeerAtLeast(s.a, Joined) && !PeerAtLeast(s.b, Joined)
  {
    var s1 := Step(Step(s0, Initiate(true, n1, m1)), Initiate(false, n2, m2));
    if es == [] {
      assert Inv(s0);
      StepKeeps(s0, Initiate(true, n1, m1));
      StepKeeps(Step(s0, Initiate(true, n1, m1)), Initiate(false, n2, m2));
      assert Run(s1, es) == s1;
    } else {
      CrossingNeverJoins(s0, n1, m1, n2, m2, es[..|es| - 1]);
      CrossedStep(Run(s1, es[..|es| - 1]), es[|es| - 1]);
    }
  }

  lemma CrossedStep(s: State, e: Event)
    requires Crossed(s)
    ensures Crossed(Step(s, e))
  {
    StepKeeps(s, e);
    var t := if e.toA then s else Mirror(s);
    if e.Arrive? && e.message in t.fromB {
      assert Honest(t.b, t.a, t.fromB, t.fromA, e.message);
    }
  }
}
