/** The two-party session handshake of SDT: JOIN, JOIN_ACCEPT, ACK, CONNECT and
    CONNECT_ACCEPT drive two member records on each side (acnsrc/sdt/sdt.c). */
module SdtJoin {
  import opened Word
  import opened Wrappers

  datatype MemberState = Empty | WaitForAccept | WaitForAck | Joined | Connected {
    function Rank(): nat {
      match this
      case Empty => 0
      case WaitForAccept => 1
      case WaitForAck => 2
      case Joined => 3
      case Connected => 4
    }

    predicate AtLeast(floor: MemberState) {
      floor.Rank() <= Rank()
    }
  }

  datatype Member = Member(mid: uint16, state: MemberState)

  /** What one component keeps about its session with the other. `chan` is the
      number of its own channel and `peer` the other's record in that channel;
      `peerChan` is the other's channel number as far as known (0 until told)
      and `own` its own record in that channel. */
  datatype Side = Side(
    known: bool,
    chan: Option<uint16>,
    peer: Option<Member>,
    peerChan: Option<uint16>,
    own: Option<Member>)

  datatype Message =
    | Join(mid: uint16, chan: uint16, reciprocal: uint16)
    | JoinAccept(chan: uint16, mid: uint16, reciprocal: uint16)
    | JoinRefuse(chan: uint16, mid: uint16)
    | Ack(mid: uint16, association: uint16)
    | Connect(mid: uint16)
    | ConnectAccept(mid: uint16, association: uint16)
    | Mak(first: uint16, last: uint16)

  /** The new record and the messages sent on the way. */
  datatype Outcome = Outcome(side: Side, sent: seq<Message>)

  const EVERY_MEMBER: uint16 := 0xFFF
  const NO_MEMBER: uint16 := 0xFFFF

  /** `sdt_join`: `number` and `mid` are the channel number and MID that would be
      assigned. */
  function StartJoin(s: Side, number: uint16, mid: uint16): Outcome {
    if s.chan.Some? && s.peer.Some? then Outcome(s, [])
    else
      var chan := if s.chan.Some? then s.chan.value else number;
      var own := if s.own.Some? then s.own.value.mid else 0;
      var peerChan := if s.peerChan.Some? then s.peerChan.value else 0;
      Outcome(Side(true, Some(chan), Some(Member(mid, WaitForAccept)), Some(peerChan), Some(Member(own, Empty))),
              [Join(mid, chan, 0)])
  }

  /** The record after `remove_allocations`: what did not exist before the call
      is deleted again, except a peer record added to a channel that did. */
  function Undo(before: Side, s: Side): Side {
    Side(before.known,
         before.chan,
         if before.chan.None? || !before.known then None else s.peer,
         if before.peerChan.None? then None else s.peerChan,
         if before.own.None? || before.peerChan.None? then None else s.own)
  }

  /** The records once everything a JOIN needs is there. */
  function Prepared(s: Side, m: Message, number: uint16): Side
    requires m.Join?
  {
    var chan := if s.chan.Some? then s.chan.value else number;
    var own := if s.own.Some? && s.peerChan.Some? then s.own.value.state else Empty;
    var peer := if s.peer.Some? && s.chan.Some? then s.peer.value else Member(0, Empty);
    Side(true, Some(chan), Some(peer), Some(m.chan), Some(Member(m.mid, own)))
  }

  /** The answer to a JOIN: `s'` are the records prepared, `s` those before. */
  function Reply(s: Side, s': Side, m: Message, mid: uint16): Outcome
    requires m.Join? && s'.chan.Some? && s'.peer.Some? && s'.own.Some?
  {
    var peer, own, chan := s'.peer.value, s'.own.value, s'.chan.value;
    var accept := JoinAccept(m.chan, m.mid, chan);
    if m.reciprocal != 0 then
      if peer.state == WaitForAck && own.state == Empty then
        Outcome(s'.(own := Some(own.(state := WaitForAck))), [accept, Ack(peer.mid, m.chan)])
      else Outcome(Undo(s, s'), [accept])
    else if peer.state == Empty && own.state == Empty then
      if m.chan > 0 then
        Outcome(s'.(peer := Some(Member(mid, WaitForAccept)), own := Some(own.(state := WaitForAck))),
                [accept, Join(mid, chan, m.chan)])
      else Outcome(Undo(s, s'.(peer := Some(Member(mid, Empty)))), [accept])
    else Outcome(Undo(s, s'), [accept])
  }

  function TakeJoin(s: Side, m: Message, number: uint16, mid: uint16): Outcome
    requires m.Join?
  {
    if m.reciprocal != 0 && s.chan != Some(m.reciprocal) then Outcome(s, [JoinRefuse(m.chan, m.mid)])
    else if s.peerChan.Some? && s.peerChan.value != 0 && s.peerChan.value != m.chan then
      Outcome(s, [JoinRefuse(m.chan, m.mid)])
    else if s.own.Some? && s.peerChan.Some? && s.peerChan.value != 0 && s.own.value.mid != m.mid then
      Outcome(s, [JoinRefuse(m.chan, m.mid)])
    else Reply(s, Prepared(s, m, number), m, mid)
  }

  function TakeJoinAccept(s: Side, m: Message): Outcome
    requires m.JoinAccept?
  {
    if s.chan != Some(m.chan) || s.peer.None? || s.peer.value.mid != m.mid || s.peerChan.None? || s.own.None? then
      Outcome(s, [])
    else if s.peer.value.state == WaitForAccept && s.own.value.state == Empty then
      Outcome(s.(peer := Some(Member(m.mid, WaitForAck))), [])
    else if s.peer.value.state == WaitForAccept && s.own.value.state == WaitForAck
            && (s.peerChan.value == 0 || s.peerChan.value == m.reciprocal) then
      Outcome(s.(peer := Some(Member(m.mid, WaitForAck))), [Ack(m.mid, s.peerChan.value)])
    else Outcome(s, [])
  }

  predicate Addressed(s: Side, mid: uint16, association: uint16) {
    && s.chan.Some? && s.peer.Some? && s.peerChan.Some? && s.own.Some?
    && (mid == EVERY_MEMBER || s.own.value.mid == mid)
    && (association != 0 ==> s.chan.value == association)
  }

  function TakeAck(s: Side): Outcome
    requires s.peer.Some? && s.own.Some?
  {
    var peer := if s.peer.value.state == WaitForAck then s.peer.value.(state := Joined) else s.peer.value;
    var own := if s.own.value.state == WaitForAck then s.own.value.(state := Joined) else s.own.value;
    Outcome(s.(peer := Some(peer), own := Some(own)),
            if peer.state == Joined && own.state == Joined then [Connect(peer.mid)] else [])
  }

  function TakeConnect(s: Side): Outcome
    requires s.peer.Some? && s.own.Some? && s.peerChan.Some?
  {
    Outcome(s.(own := Some(s.own.value.(state := Connected))), [ConnectAccept(s.peer.value.mid, s.peerChan.value)])
  }

  function TakeConnectAccept(s: Side): Outcome
    requires s.peer.Some?
  {
    Outcome(s.(peer := Some(s.peer.value.(state := Connected))), [])
  }

  function FirstMid(m: Message): uint16 {
    if m.Mak? then m.first else NO_MEMBER
  }

  function LastMid(m: Message): uint16 {
    if m.Mak? then m.last else NO_MEMBER
  }

  /** The acknowledgement a wrapper asks its receiver for. */
  function Solicited(s: Side, m: Message): seq<Message> {
    if s.own.Some? && s.own.value.state.AtLeast(Joined) && FirstMid(m) <= s.own.value.mid <= LastMid(m)
       && s.chan.Some? && s.peer.Some? && s.peerChan.Some?
    then [Ack(s.peer.value.mid, s.peerChan.value)]
    else []
  }

  /** A wrapper that has passed the sequence gate. */
  function TakeWrapper(s: Side, m: Message): Outcome
    requires m.Ack? || m.Connect? || m.ConnectAccept? || m.Mak?
  {
    var o :=
      match m
      case Ack(mid, association) => if Addressed(s, mid, association) then TakeAck(s) else Outcome(s, [])
      case Connect(mid) => if Addressed(s, mid, 0) then TakeConnect(s) else Outcome(s, [])
      case ConnectAccept(mid, association) =>
        if Addressed(s, mid, association) then TakeConnectAccept(s) else Outcome(s, [])
      case _ => Outcome(s, []);
    o.(sent := Solicited(s, m) + o.sent)
  }

  function Take(s: Side, m: Message, number: uint16, mid: uint16): Outcome {
    match m
    case Join(_, _, _) => TakeJoin(s, m, number, mid)
    case JoinAccept(_, _, _) => TakeJoinAccept(s, m)
    case JoinRefuse(_, _) => Outcome(s, [])
    case _ => TakeWrapper(s, m)
  }

  // ----- What the handlers protect, whoever sends -----

  /** A JOIN does not fit the records: it answers another channel than the own, or
      the sender or the own component is already known by another number. */
  predicate Disagrees(s: Side, m: Message)
    requires m.Join?
  {
    || (m.reciprocal != 0 && s.chan != Some(m.reciprocal))
    || (Bound(s) && (s.peerChan != Some(m.chan) || (s.own.Some? && s.own.value.mid != m.mid)))
  }

  /** The sender's channel number is known. */
  predicate Bound(s: Side) {
    s.peerChan.Some? && s.peerChan.value != 0
  }

  /** A JOIN is refused exactly if it does not fit the records, and then leaves them
      as they are; any other is accepted. */
  lemma RefusedExactly(s: Side, m: Message, number: uint16, mid: uint16)
    requires m.Join?
    ensures var o := Take(s, m, number, mid);
            && ((exists r :: r in o.sent && r.JoinRefuse?) <==> Disagrees(s, m))
            && (Disagrees(s, m) ==> o == Outcome(s, [JoinRefuse(m.chan, m.mid)]))
            && (!Disagrees(s, m) ==>
                  && o.sent != [] && o.sent[0].JoinAccept? && o.sent[0].chan == m.chan && o.sent[0].mid == m.mid
                  && (s.chan.Some? ==> o.sent[0].reciprocal == s.chan.value))
  {
    var o := Take(s, m, number, mid);
    assert Disagrees(s, m) ==> o.sent[0] in o.sent;
  }

  /** What follows the JOIN_ACCEPT: an ACK exactly if the JOIN answers one whose
      acceptance came already, a JOIN in return exactly if neither side has begun
      and the channel has a number, and the records that go with them. */
  lemma AnsweredExactly(s: Side, m: Message, number: uint16, mid: uint16)
    requires m.Join? && !Disagrees(s, m)
    ensures var o := Take(s, m, number, mid);
            var chan := if s.chan.Some? then s.chan.value else number;
            var begins := s.own.None? || s.peerChan.None? || s.own.value.state == Empty;
            var acks := m.reciprocal != 0 && s.peer.Some? && s.peer.value.state == WaitForAck && begins;
            var asks := m.reciprocal == 0 && m.chan != 0 && begins
                        && (s.chan.None? || s.peer.None? || s.peer.value.state == Empty);
            && o.sent == [JoinAccept(m.chan, m.mid, chan)] + (if acks then [Ack(s.peer.value.mid, m.chan)] else [])
                         + (if asks then [Join(mid, chan, m.chan)] else [])
            && (acks || asks ==>
                  o.side == Side(true, Some(chan), if asks then Some(Member(mid, WaitForAccept)) else s.peer,
                                 Some(m.chan), Some(Member(m.mid, WaitForAck))))
  {
  }

  /** A JOIN that leads to neither an ACK nor a JOIN in return sets up nothing: only
      the other side's record can be new, in a channel that was there before. */
  lemma LeavesNothing(s: Side, m: Message, number: uint16, mid: uint16)
    requires m.Join? && forall r :: r in Take(s, m, number, mid).sent ==> !r.Ack? && !r.Join?
    ensures var t := Take(s, m, number, mid).side;
            && t.known == s.known && t.chan == s.chan
            && (s.peerChan.None? ==> t.peerChan.None?) && (s.own.None? ==> t.own.None?)
            && (s.chan.None? || !s.known ==> t.peer.None? || t == s)
            && (s.chan.Some? && s.known && s.peer.Some? ==> t.peer.Some? && t.peer.value.state == s.peer.value.state)
            && (s.peer.None? && t.peer.Some? ==>
                  t.peer.value.state == Empty && (t.peer.value.mid == 0 || (m.chan == 0 && t.peer.value.mid == mid)))
            && (t.own.Some? ==> t.own.value.state == s.own.value.state)
  {
    var o := Take(s, m, number, mid);
    if |o.sent| > 1 {
      assert o.sent[1] in o.sent;
    }
  }

  /** Calls and messages of any kind, from anybody. */
  datatype Input = Calls(number: uint16, mid: uint16) | Hears(m: Message, number: uint16, mid: uint16)

  function After(s: Side, i: Input): Side {
    match i
    case Calls(number, mid) => StartJoin(s, number, mid).side
    case Hears(m, number, mid) => Take(s, m, number, mid).side
  }

  function AfterAll(s: Side, inputs: seq<Input>): Side {
    if inputs == [] then s else After(AfterAll(s, inputs[..|inputs| - 1]), inputs[|inputs| - 1])
  }

  /** Once known, the other's channel number never changes, and neither does the own
      MID in it, whatever is received. */
  lemma {:induction false} StaysBound(s: Side, inputs: seq<Input>)
    requires Bound(s)
    ensures var t := AfterAll(s, inputs);
            t.peerChan == s.peerChan && (s.own.Some? ==> t.own.Some? && t.own.value.mid == s.own.value.mid)
  {
    if inputs == [] {
    } else {
      StaysBound(s, inputs[..|inputs| - 1]);
    }
  }

  /** The own channel number never changes either, nor the other side's MID in it once
      that was asked to join. */
  lemma {:induction false} OwnStays(s: Side, inputs: seq<Input>)
    requires s.known && s.chan.Some?
    ensures var t := AfterAll(s, inputs);
            && t.known && t.chan == s.chan && (s.peer.Some? ==> t.peer.Some?)
            && (s.peer.Some? && s.peer.value.state != Empty ==>
                  t.peer.value.state != Empty && t.peer.value.mid == s.peer.value.mid)
  {
    if inputs == [] {
    } else {
      OwnStays(s, inputs[..|inputs| - 1]);
    }
  }

  /** A JOIN_ACCEPT counts exactly if it names the own channel, the MID given and,
      once an ACK is due, the other's channel if that is known. */
  lemma AcceptCounts(s: Side, m: Message, number: uint16, mid: uint16)
    requires m.JoinAccept?
    ensures var o := Take(s, m, number, mid);
            var named := s.chan == Some(m.chan) && s.peer == Some(Member(m.mid, WaitForAccept))
                         && s.peerChan.Some? && s.own.Some?;
            && (o.side != s <==>
                named && (s.own.value.state == Empty
                          || (s.own.value.state == WaitForAck && (Bound(s) ==> s.peerChan == Some(m.reciprocal)))))
            && (o.side != s ==> o.side == s.(peer := Some(Member(m.mid, WaitForAck))))
            && o.sent == if o.side != s && s.own.value.state == WaitForAck then [Ack(m.mid, s.peerChan.value)] else []
  {
  }

  /** A MAK is answered with an ACK exactly by a joined member whose MID it covers,
      and changes no record. */
  lemma MakAnswered(s: Side, first: uint16, last: uint16, number: uint16, mid: uint16)
    ensures var o := Take(s, Mak(first, last), number, mid);
            && o.side == s
            && ((exists r :: r in o.sent) <==>
                && s.chan.Some? && s.peer.Some? && s.peerChan.Some? && s.own.Some?
                && s.own.value.state in {Joined, Connected} && first <= s.own.value.mid && s.own.value.mid <= last)
            && forall r :: r in o.sent ==>
                 s.peer.Some? && s.peerChan.Some? && r == Ack(s.peer.value.mid, s.peerChan.value)
  {
    var o := Take(s, Mak(first, last), number, mid);
    if o.sent != [] {
      assert o.sent[0] in o.sent;
    }
  }

  /** A wrapped message for another MID has no effect; one for all members has the
      effect of one for the own MID. */
  lemma OnlyAddressed(s: Side, mid: uint16, association: uint16, number: uint16, given: uint16)
    ensures mid != EVERY_MEMBER && s.own.Some? && s.own.value.mid != mid ==>
              && Take(s, Ack(mid, association), number, given).side == s
              && Take(s, Connect(mid), number, given).side == s
              && Take(s, ConnectAccept(mid, association), number, given).side == s
    ensures association != 0 && s.chan != Some(association) ==>
              && Take(s, Ack(mid, association), number, given).side == s
              && Take(s, ConnectAccept(mid, association), number, given).side == s
    ensures s.own.Some? ==>
              var own := s.own.value.mid;
              && Take(s, Ack(EVERY_MEMBER, association), number, given) == Take(s, Ack(own, association), number, given)
              && Take(s, Connect(EVERY_MEMBER), number, given) == Take(s, Connect(own), number, given)
              && Take(s, ConnectAccept(EVERY_MEMBER, association), number, given) ==
                 Take(s, ConnectAccept(own, association), number, given)
  {
  }

  /** `sdt_join` asks exactly if the other is not in the own channel yet, keeps what
      is there of numbers, and starts both records anew. */
  lemma AsksOnce(s: Side, number: uint16, mid: uint16)
    ensures var o := StartJoin(s, number, mid);
            && (o.sent == [] <==> s.chan.Some? && s.peer.Some?)
            && (o.sent == [] ==> o.side == s)
            && (o.sent != [] ==>
                  && o.side.known && o.side.chan.Some? && o.side.peerChan.Some? && o.side.own.Some?
                  && (s.chan.Some? ==> o.side.chan == s.chan) && (s.peerChan.Some? ==> o.side.peerChan == s.peerChan)
                  && (s.own.Some? ==> o.side.own.value.mid == s.own.value.mid)
                  && o.side.own.value.state == Empty && o.side.peer == Some(Member(mid, WaitForAccept))
                  && o.sent == [Join(mid, o.side.chan.value, 0)])
  {
  }

  /** One component's records, updated in place by the receive handlers. */
  class Endpoint {
    var known: bool
    var chan: Option<uint16>
    var peer: Option<Member>
    var peerChan: Option<uint16>
    var own: Option<Member>

    function Now(): Side
      reads this
    {
      Side(known, chan, peer, peerChan, own)
    }

    method SdtJoin(number: uint16, mid: uint16) returns (sent: seq<Message>)
      modifies this
      ensures Outcome(Now(), sent) == StartJoin(old(Now()), number, mid)
    {
      if chan.Some? && peer.Some? { return []; }
      known := true;
      if chan.None? { chan := Some(number); }
      peer := Some(Member(mid, Empty));
      if peerChan.None? { peerChan := Some(0); }
      if own.None? { own := Some(Member(0, Empty)); }
      sent := [Join(mid, chan.value, 0)];
      peer := Some(peer.value.(state := WaitForAccept));
      own := Some(own.value.(state := Empty));
    }

    method RemoveAllocations(component: bool, localChannel: bool, foreignChannel: bool, localMember: bool)
      modifies this
      ensures known == (old(known) && !component)
      ensures chan == if localChannel then None else old(chan)
      ensures peer == if localChannel || component then None else old(peer)
      ensures peerChan == if foreignChannel then None else old(peerChan)
      ensures own == if localMember || foreignChannel then None else old(own)
    {
      if localMember { own := None; }
      if foreignChannel { peerChan := None; own := None; }
      if component { known := false; peer := None; }
      if localChannel { chan := None; peer := None; }
    }

    method RxJoin(m: Message, number: uint16, mid: uint16) returns (sent: seq<Message>)
      requires m.Join?
      requires own.Some? ==> peerChan.Some?
      requires peer.Some? ==> chan.Some?
      requires peerChan.Some? ==> known
      modifies this
      ensures Outcome(Now(), sent) == TakeJoin(old(Now()), m, number, mid)
    {
      ghost var before := Now();
      var newComponent, newLocal, newForeign, newMember := false, false, false, false;
      if m.reciprocal != 0 && (chan.None? || chan.value != m.reciprocal) {
        return [JoinRefuse(m.chan, m.mid)];
      }
      if chan.None? {
        chan := Some(number);
        newLocal := true;
      }
      if !known {
        known := true;
        newComponent := true;
      }
      if peerChan.Some? {
        if peerChan.value != 0 && peerChan.value != m.chan {
          RemoveAllocations(newComponent, newLocal, newForeign, newMember);
          return [JoinRefuse(m.chan, m.mid)];
        }
      } else {
        peerChan := Some(m.chan);
        newForeign := true;
      }
      if own.Some? {
        if peerChan.value != 0 && own.value.mid != m.mid {
          RemoveAllocations(newComponent, newLocal, newForeign, newMember);
          return [JoinRefuse(m.chan, m.mid)];
        }
      } else {
        own := Some(Member(0, Empty));
        newMember := true;
      }
      own := Some(own.value.(mid := m.mid));
      if peer.None? {
        peer := Some(Member(0, Empty));
      }
      peerChan := Some(m.chan);
      sent := Answer(m, mid, newComponent, newLocal, newForeign, newMember, before);
    }

    /** The part of `sdt_rx_join` that sends: the flags tell what did not exist
        before. */
    method Answer(m: Message, mid: uint16, newComponent: bool, newLocal: bool, newForeign: bool, newMember: bool,
                  ghost before: Side)
      returns (sent: seq<Message>)
      requires m.Join? && known && chan.Some? && peer.Some? && own.Some?
      requires own.value.mid == m.mid && peerChan == Some(m.chan)
      requires newComponent == !before.known && newLocal == before.chan.None?
      requires newForeign == before.peerChan.None? && newMember == before.own.None?
      requires (!newComponent ==> known == before.known) && (!newLocal ==> chan == before.chan)
      modifies this
      ensures Outcome(Now(), sent) == Reply(before, old(Now()), m, mid)
    {
      sent := [JoinAccept(peerChan.value, own.value.mid, chan.value)];
      if m.reciprocal != 0 {
        if peer.value.state == WaitForAck && own.value.state == Empty {
          sent := sent + [Ack(peer.value.mid, peerChan.value)];
          own := Some(own.value.(state := WaitForAck));
        } else {
          RemoveAllocations(newComponent, newLocal, newForeign, newMember);
        }
      } else if peer.value.state == Empty && own.value.state == Empty {
        peer := Some(peer.value.(mid := mid));
        if peerChan.value > 0 {
          sent := sent + [Join(mid, chan.value, peerChan.value)];
          own := Some(own.value.(state := WaitForAck));
          peer := Some(peer.value.(state := WaitForAccept));
        } else {
          RemoveAllocations(newComponent, newLocal, newForeign, newMember);
        }
      } else {
        RemoveAllocations(newComponent, newLocal, newForeign, newMember);
      }
    }

    method RxJoinAccept(m: Message) returns (sent: seq<Message>)
      requires m.JoinAccept?
      modifies this
      ensures Outcome(Now(), sent) == TakeJoinAccept(old(Now()), m)
    {
      sent := [];
      if chan.None? || chan.value != m.chan { return; }
      if peer.None? || peer.value.mid != m.mid { return; }
      if peerChan.None? || own.None? { return; }
      if peer.value.state == WaitForAccept && own.value.state == Empty {
        peer := Some(peer.value.(state := WaitForAck));
      }
      if peer.value.state == WaitForAccept && own.value.state == WaitForAck {
        if peerChan.value > 0 && peerChan.value != m.reciprocal { return; }
        sent := [Ack(peer.value.mid, peerChan.value)];
        peer := Some(peer.value.(state := WaitForAck));
      }
    }

    method RxWrapper(m: Message) returns (sent: seq<Message>)
      requires m.Ack? || m.Connect? || m.ConnectAccept? || m.Mak?
      requires own.Some? ==> peerChan.Some? && chan.Some? && peer.Some?
      modifies this
      ensures Outcome(Now(), sent) == TakeWrapper(old(Now()), m)
    {
      sent := [];
      if own.None? { return; }
      if (own.value.state == Joined || own.value.state == Connected)
         && own.value.mid >= FirstMid(m) && own.value.mid <= LastMid(m) {
        sent := [Ack(peer.value.mid, peerChan.value)];
      }
      match m
      case Ack(mid, association) =>
        if mid != EVERY_MEMBER && own.value.mid != mid { return; }
        if association != 0 && chan.value != association { return; }
        if peer.value.state == WaitForAck { peer := Some(peer.value.(state := Joined)); }
        if own.value.state == WaitForAck { own := Some(own.value.(state := Joined)); }
        if own.value.state == Joined && peer.value.state == Joined {
          sent := sent + [Connect(peer.value.mid)];
        }
      case Connect(mid) =>
        if mid != EVERY_MEMBER && own.value.mid != mid { return; }
        sent := sent + [ConnectAccept(peer.value.mid, peerChan.value)];
        own := Some(own.value.(state := Connected));
      case ConnectAccept(mid, association) =>
        if mid != EVERY_MEMBER && own.value.mid != mid { return; }
        if association != 0 && chan.value != association { return; }
        peer := Some(peer.value.(state := Connected));
      case _ =>
    }
  }
}
