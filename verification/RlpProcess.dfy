/** Receiving a packet: every PDU goes to every listener of its protocol
    (acnsrc/rlp/rlp.c, acnsrc/rlp/rlpmem.c). */
module RlpProcess {
  import opened Word
  import opened Marshal
  import opened Wrappers
  import opened Chains
  import opened RlpWire
  import opened RlpRoundTrip
  import opened RlpGroups
  import opened RlpRegistry
  import Senders = RlpSenders

  /** A callback with the positions it is handed. */
  datatype Call = Call(callback: nat, ref: nat, item: Item)

  function CallsOf(ls: seq<Listener>, item: Item): seq<Call> {
    if ls == [] then []
    else
      (if ls[0].protocol == item.protocol && ls[0].callback != 0 then [Call(ls[0].callback, ls[0].ref, item)] else [])
      + CallsOf(ls[1..], item)
  }

  function CallsAll(targets: seq<seq<Listener>>, item: Item): seq<Call> {
    if targets == [] then [] else CallsOf(targets[0], item) + CallsAll(targets[1..], item)
  }

  /** PDU by PDU, group by group, listener by listener. */
  function CallsFor(targets: seq<seq<Listener>>, items: seq<Item>): seq<Call> {
    if items == [] then [] else CallsAll(targets, items[0]) + CallsFor(targets, items[1..])
  }

  // ----- Listeners of one group -----

  /** Search from `from` on: `rlpm_first_listener` starts at the head of the list,
      `rlpm_next_listener` behind a listener. */
  method Seek(list: Chain<Listener>, from: Node?<Listener>, protocol: uint32, ghost i: nat)
    returns (n: Node?<Listener>, ghost j: nat)
    requires list.Linked() && i <= |list.nodes| && from == At(list.nodes, i)
    ensures i <= j <= |list.nodes| && n == At(list.nodes, j)
    ensures n != null ==> n.val.protocol == protocol
    ensures forall x :: i <= x < j ==> list.nodes[x].val.protocol != protocol
  {
    n, j := from, i;
    while n != null
      invariant i <= j <= |list.nodes| && n == At(list.nodes, j)
      invariant forall x :: i <= x < j ==> list.nodes[x].val.protocol != protocol
      decreases |list.nodes| - j
    {
      if n.val.protocol == protocol { return; }
      n, j := n.next, j + 1;
    }
  }

  lemma {:induction false} Skipped(ls: seq<Listener>, item: Item, i: nat, j: nat)
    requires i <= j <= |ls| && forall x :: i <= x < j ==> ls[x].protocol != item.protocol
    ensures CallsOf(ls[i..], item) == CallsOf(ls[j..], item)
    decreases j - i
  {
    if i >= j {
    } else {
      assert ls[i..][1..] == ls[i + 1..];
      Skipped(ls, item, i + 1, j);
    }
  }

  lemma NoCalls(item: Item)
    ensures CallsOf([], item) == []
  {
  }

  lemma CallStep(ls: seq<Listener>, i: nat, item: Item)
    requires i < |ls|
    ensures CallsOf(ls[i..], item) ==
            (if ls[i].protocol == item.protocol && ls[i].callback != 0
             then [Call(ls[i].callback, ls[i].ref, item)] else [])
            + CallsOf(ls[i + 1..], item)
  {
    assert ls[i..][1..] == ls[i + 1..];
  }

  method Dispatch(list: Chain<Listener>, item: Item) returns (calls: seq<Call>)
    requires list.Linked()
    ensures calls == CallsOf(Values(list.nodes), item)
  {
    hide CallsOf;
    calls := [];
    ghost var ls := Values(list.nodes);
    assert ls[0..] == ls && ls[|ls|..] == [];
    NoCalls(item);
    var n; ghost var i;
    n, i := Seek(list, list.head, item.protocol, 0);
    Skipped(ls, item, 0, i);
    while n != null
      invariant i <= |list.nodes| && n == At(list.nodes, i) && (n != null ==> n.val.protocol == item.protocol)
      invariant calls + CallsOf(ls[i..], item) == CallsOf(ls, item)
      decreases |list.nodes| - i
    {
      CallStep(ls, i, item);
      if n.val.callback != 0 {
        calls := calls + [Call(n.val.callback, n.val.ref, item)];
      }
      ghost var next := i + 1;
      n, i := Seek(list, n.next, item.protocol, next);
      Skipped(ls, item, next, i);
    }
  }

  // ----- Groups -----

  /** The listener lists of the groups on a socket, in list order. */
  function OnSocket(gs: seq<Group>, cs: seq<seq<Listener>>, socket: nat): seq<seq<Listener>> {
    if gs == [] then []
    else (if gs[0].socket == socket && gs[0].slot < |cs| then [cs[gs[0].slot]] else []) + OnSocket(gs[1..], cs, socket)
  }

  /** The listeners of every group slot. */
  ghost function Contents(pool: ListenerPool): (cs: seq<seq<Listener>>)
    requires pool.Listed()
    reads pool.members, pool.slots
    ensures |cs| == |pool.members|
    ensures forall k :: 0 <= k < |cs| ==> pool.InSlots(k) && pool.OnList(k) && cs[k] == Values(pool.members[k].nodes)
  {
    seq(|pool.members|, k requires 0 <= k < |pool.members| && pool.Listed() reads pool.members, pool.slots =>
      assert pool.InSlots(k) && pool.OnList(k);
      Values(pool.members[k].nodes))
  }

  /** The lists a packet goes to. A stack that tells the destination address picks
      one group; one that does not, all groups of the socket. */
  ghost function Targets(reg: Registry, socket: nat, dest: Option<uint32>): seq<seq<Listener>>
    requires reg.Shape()
    reads reg.groups.list, reg.groups.list.nodes, reg.groups.slots, reg.pool.members, reg.pool.slots
  {
    var gs, cs := reg.groups.Groups(), Contents(reg.pool);
    match dest
    case None => OnSocket(gs, cs, socket)
    case Some(d) =>
      var i := Find(reg.View(), socket, if IsMulticast(d) then d else UNICAST);
      if i < |gs| then [cs[gs[i].slot]] else []
  }

  lemma GroupStep(gs: seq<Group>, cs: seq<seq<Listener>>, socket: nat, i: nat, item: Item)
    requires i < |gs| && gs[i].slot < |cs|
    ensures CallsAll(OnSocket(gs[i..], cs, socket), item) ==
            (if gs[i].socket == socket then CallsOf(cs[gs[i].slot], item) else [])
              + CallsAll(OnSocket(gs[i + 1..], cs, socket), item)
  {
    assert gs[i..][1..] == gs[i + 1..];
    if gs[i].socket == socket {
      assert OnSocket(gs[i..], cs, socket)[1..] == OnSocket(gs[i + 1..], cs, socket);
    } else {
      assert OnSocket(gs[i..], cs, socket) == OnSocket(gs[i + 1..], cs, socket);
    }
  }

  lemma GroupEnds(gs: seq<Group>, cs: seq<seq<Listener>>, socket: nat, item: Item)
    ensures gs[0..] == gs && CallsAll(OnSocket(gs[|gs|..], cs, socket), item) == []
  {
  }

  /** A listed group's list of listeners. */
  lemma GroupTarget(reg: Registry, i: nat)
    requires reg.Shape() && i < |reg.groups.list.nodes|
    ensures reg.groups.list.Linked() && reg.pool.Listed()
    ensures var g := reg.groups.list.nodes[i];
            && g.val == reg.groups.Groups()[i] && g.val.slot < |reg.pool.members|
            && reg.pool.members[g.val.slot].Linked()
            && Contents(reg.pool)[g.val.slot] == Values(reg.pool.members[g.val.slot].nodes)
  {
    reg.GroupReady(reg.groups.list.nodes[i], i);
  }

  lemma ShapeLinked(reg: Registry)
    requires reg.Shape()
    ensures reg.groups.list.Linked() && reg.pool.Listed()
    ensures reg.groups.list.head == At(reg.groups.list.nodes, 0)
  {
  }

  lemma NextGroup(reg: Registry, i: nat)
    requires reg.Shape() && i < |reg.groups.list.nodes|
    ensures reg.groups.list.nodes[i].next == At(reg.groups.list.nodes, i + 1)
  {
  }

  lemma {:induction false} OnSocketJoins(a: seq<Group>, b: seq<Group>, cs: seq<seq<Listener>>, socket: nat)
    ensures OnSocket(a + b, cs, socket) == OnSocket(a, cs, socket) + OnSocket(b, cs, socket)
  {
    if a == [] {
      assert a + b == b;
    } else {
      assert (a + b)[1..] == a[1..] + b;
      OnSocketJoins(a[1..], b, cs, socket);
    }
  }

  /** A listed group in the registry's view. */
  lemma EntryIs(reg: Registry, i: nat)
    requires reg.Shape() && i < |reg.groups.list.nodes|
    ensures reg.pool.Listed() && |reg.View()| == |reg.groups.Groups()| == |reg.groups.list.nodes|
    ensures var e, g := reg.View()[i], reg.groups.Groups()[i];
            && e.socket == g.socket && e.addr == g.addr && g.slot < |Contents(reg.pool)|
            && Values(e.listeners) == Contents(reg.pool)[g.slot]
  {
    GroupTarget(reg, i);
  }

  /** Which groups get a packet whose destination is not known: every one of the
      socket, at its place among the others. */
  lemma EveryGroupTargeted(reg: Registry, socket: nat, i: nat)
    requires reg.Shape() && i < |reg.groups.list.nodes|
    ensures reg.pool.Listed() && i < |reg.View()| == |reg.groups.Groups()|
    ensures var e, gs, cs := reg.View()[i], reg.groups.Groups(), Contents(reg.pool);
            Targets(reg, socket, None) ==
            OnSocket(gs[..i], cs, socket)
            + ((if e.socket == socket then [Values(e.listeners)] else []) + OnSocket(gs[i + 1..], cs, socket))
  {
    hide Registry.Shape, ListenerPool.Listed, Registry.View, Contents;
    EntryIs(reg, i);
    var gs, cs := reg.groups.Groups(), Contents(reg.pool);
    assert gs == gs[..i] + ([gs[i]] + gs[i + 1..]) && [gs[i]][1..] == [];
    OnSocketJoins(gs[..i], [gs[i]] + gs[i + 1..], cs, socket);
    OnSocketJoins([gs[i]], gs[i + 1..], cs, socket);
  }

  lemma UniqueFind(v: seq<Entry>, i: nat)
    requires Unique(v) && i < |v|
    ensures Find(v, v[i].socket, v[i].addr) == i
  {
    FindIs(v, v[i].socket, v[i].addr, i);
  }

  /** With a known destination it is the one group of the socket with that address,
      or with 0 unless it lies between 224.0.0.0 and 239.255.255.255. */
  lemma OneGroupTargeted(reg: Registry, socket: nat, d: uint32, i: nat)
    requires reg.Valid() && i < |reg.groups.list.nodes|
    ensures i < |reg.View()|
    ensures var e := reg.View()[i];
            e.socket == socket && e.addr == (if 0xe000_0000 <= d <= 0xefff_ffff then d else 0) ==>
              Targets(reg, socket, Some(d)) == [Values(e.listeners)]
  {
    hide Registry.Shape, ListenerPool.Listed, Registry.View, Contents, Find, Unique;
    EntryIs(reg, i);
    UniqueFind(reg.View(), i);
  }

  /** A destination no group of the socket has is for nobody. */
  lemma NobodyListens(reg: Registry, socket: nat, d: uint32)
    requires reg.Shape() && !Has(reg.View(), socket, if 0xe000_0000 <= d <= 0xefff_ffff then d else 0)
    ensures Targets(reg, socket, Some(d)) == []
  {
  }

  method DispatchAll(reg: Registry, socket: nat, item: Item) returns (calls: seq<Call>)
    requires reg.Shape()
    ensures calls == CallsAll(Targets(reg, socket, None), item)
  {
    hide Registry.Shape, Chain.Linked, ListenerPool.Listed, CallsAll, OnSocket, Contents, CallsOf;
    calls := [];
    ShapeLinked(reg);
    var g := reg.groups.list.head;
    ghost var i, gs, cs := 0, reg.groups.Groups(), Contents(reg.pool);
    GroupEnds(gs, cs, socket, item);
    while g != null
      invariant i <= |gs| == |reg.groups.list.nodes| && g == At(reg.groups.list.nodes, i)
      invariant calls + CallsAll(OnSocket(gs[i..], cs, socket), item) == CallsAll(OnSocket(gs, cs, socket), item)
      decreases |gs| - i
    {
      GroupTarget(reg, i);
      GroupStep(gs, cs, socket, i, item);
      NextGroup(reg, i);
      if g.val.socket == socket {
        var some := Dispatch(reg.pool.members[g.val.slot], item);
        calls := calls + some;
      }
      g, i := g.next, i + 1;
    }
  }

  // ----- Packets -----

  /** The reading of one PDU. */
  method ReadPdu(data: array<uint8>, length: nat, pos: nat, was: Item) returns (r: Parsed)
    requires pos < length && length + SLACK <= data.Length
    ensures r == ParsePdu(data[..], length, pos, was)
  {
    var protocol, cid, datap, datasize := was.protocol, was.cid, was.data, was.size;
    var flags := FlagsOf(data[pos]);
    var pp := pos + 2;
    var pdup := pos + LengthOf(data[..], pos);
    if pdup > length { return Bad; }
    if flags.vector {
      protocol := FromU32(data[..], pp);
      pp := pp + 4;
    }
    if flags.header {
      cid := pp;
      pp := pp + 16;
    }
    if pp > pdup { return Bad; }
    if flags.data {
      datap, datasize := pp, pdup - pp;
    }
    return Good(Item(protocol, cid, datap, datasize), pdup);
  }

  lemma NoTargets(items: seq<Item>)
    ensures CallsFor([], items) == []
  {
  }

  lemma OneTarget(ls: seq<Listener>, item: Item)
    ensures CallsAll([ls], item) == CallsOf(ls, item)
  {
    assert [ls][1..] == [];
  }

  lemma ItemStep(targets: seq<seq<Listener>>, m: Bytes, length: nat, pos: nat, was: Item)
    requires length + SLACK <= |m| && pos < length
    ensures var r := ParsePdu(m, length, pos, was);
            CallsFor(targets, Items(m, length, pos, was)) ==
            if r.Bad? then [] else CallsAll(targets, r.item) + CallsFor(targets, Items(m, length, r.end, r.item))
  {
    var r := ParsePdu(m, length, pos, was);
    if r.Good? {
      assert Items(m, length, pos, was)[1..] == Items(m, length, r.end, r.item);
    }
  }

  lemma ItemsEnd(targets: seq<seq<Listener>>, m: Bytes, length: nat, pos: nat, was: Item)
    requires length + SLACK <= |m| && pos >= length
    ensures CallsFor(targets, Items(m, length, pos, was)) == []
  {
  }

  /** The single group a packet for a known destination goes to. */
  method FindTarget(reg: Registry, socket: nat, d: uint32) returns (list: Chain?<Listener>)
    requires reg.Shape()
    ensures list == null ==> Targets(reg, socket, Some(d)) == []
    ensures list != null ==> list.Linked() && Targets(reg, socket, Some(d)) == [Values(list.nodes)]
  {
    hide Registry.Shape, Chain.Linked, ListenerPool.Listed, Contents, Find;
    ShapeLinked(reg);
    var group; ghost var i;
    group, i := reg.groups.Find(socket, d);
    FindIs(reg.View(), socket, if IsMulticast(d) then d else UNICAST, i);
    if group == null { return null; }
    GroupTarget(reg, i);
    list := reg.pool.members[group.val.slot];
  }

  /** `rlp_process_packet` */
  method ProcessPacket(reg: Registry, socket: nat, data: array<uint8>, length: nat, dest: Option<uint32>)
    returns (calls: seq<Call>)
    requires reg.Shape() && length + SLACK <= data.Length
    ensures calls == CallsFor(Targets(reg, socket, dest), Parse(data[..], length))
  {
    hide Registry.Shape, Chain.Linked, ListenerPool.Listed, CallsFor, CallsAll, CallsOf, Items, Targets, ParsePdu;
    calls := [];
    ghost var targets, m := Targets(reg, socket, dest), data[..];
    NoItems(targets);
    assert length >= FIRST ==> data[..16] == m[..16];
    if length < FIRST || data[..16] != PREAMBLE || FlagsOf(data[16]) != Flags(false, true, true, true) { return; }
    var list: Chain?<Listener> := null;
    if dest.Some? {
      list := FindTarget(reg, socket, dest.value);
      if list == null {
        NoTargets(Parse(m, length));
        return;
      }
    }
    var pos, was := 16, NOTHING;
    while pos < length
      invariant dest.Some? ==> list != null && list.Linked() && targets == [Values(list.nodes)]
      invariant calls + CallsFor(targets, Items(m, length, pos, was)) == CallsFor(targets, Parse(m, length))
      decreases length - pos
    {
      ItemStep(targets, m, length, pos, was);
      var r := ReadPdu(data, length, pos, was);
      if r.Bad? { return; }
      pos, was := r.end, r.item;
      var some;
      if dest.Some? {
        some := Dispatch(list, was);
        OneTarget(Values(list.nodes), was);
      } else {
        some := DispatchAll(reg, socket, was);
      }
      calls := calls + some;
    }
    ItemsEnd(targets, m, length, pos, was);
  }

  lemma NoItems(targets: seq<seq<Listener>>)
    ensures CallsFor(targets, []) == []
  {
  }

  // ----- What the listeners see -----

  /** A callback with what its pointers show. */
  datatype Heard = Heard(callback: nat, ref: nat, delivery: Delivery)

  function HeardOf(m: Bytes, calls: seq<Call>): (hs: seq<Heard>)
    ensures |hs| == |calls|
  {
    seq(|calls|, i requires 0 <= i < |calls| => Heard(calls[i].callback, calls[i].ref, Seen(m, calls[i].item)))
  }

  function Hears(ls: seq<Listener>, d: Delivery): seq<Heard> {
    if ls == [] then []
    else
      (if ls[0].protocol == d.protocol && ls[0].callback != 0 then [Heard(ls[0].callback, ls[0].ref, d)] else [])
        + Hears(ls[1..], d)
  }

  function HearAll(targets: seq<seq<Listener>>, d: Delivery): seq<Heard> {
    if targets == [] then [] else Hears(targets[0], d) + HearAll(targets[1..], d)
  }

  /** For each PDU sent, every listener of its protocol once, in order. */
  function HearSent(targets: seq<seq<Listener>>, ds: seq<Delivery>): seq<Heard> {
    if ds == [] then [] else HearAll(targets, ds[0]) + HearSent(targets, ds[1..])
  }

  lemma {:induction false} HearsJoins(a: seq<Listener>, b: seq<Listener>, d: Delivery)
    ensures Hears(a + b, d) == Hears(a, d) + Hears(b, d)
  {
    if a == [] {
      assert a + b == b;
    } else {
      assert (a + b)[1..] == a[1..] + b;
      HearsJoins(a[1..], b, d);
    }
  }

  lemma {:induction false} HearAllJoins(a: seq<seq<Listener>>, b: seq<seq<Listener>>, d: Delivery)
    ensures HearAll(a + b, d) == HearAll(a, d) + HearAll(b, d)
  {
    hide Hears;
    if a == [] {
      assert a + b == b;
    } else {
      assert (a + b)[1..] == a[1..] + b;
      HearAllJoins(a[1..], b, d);
    }
  }

  lemma {:induction false} HearSentJoins(targets: seq<seq<Listener>>, a: seq<Delivery>, b: seq<Delivery>)
    ensures HearSent(targets, a + b) == HearSent(targets, a) + HearSent(targets, b)
  {
    hide HearAll;
    if a == [] {
      assert a + b == b;
    } else {
      assert (a + b)[1..] == a[1..] + b;
      HearSentJoins(targets, a[1..], b);
    }
  }

  /** What one listener contributes, at any place in any group, for any PDU of the
      packet: it hears the PDU once, between what stands before it and behind it,
      exactly if the protocol is its own and it has a callback. */
  lemma HearsExactly(before: seq<Listener>, l: Listener, behind: seq<Listener>, d: Delivery,
                     groups: seq<seq<Listener>>, others: seq<seq<Listener>>, ds: seq<Delivery>, es: seq<Delivery>)
    ensures var own := if l.protocol == d.protocol && l.callback != 0 then [Heard(l.callback, l.ref, d)] else [];
            var targets := groups + ([before + ([l] + behind)] + others);
            HearSent(targets, ds + ([d] + es)) ==
            HearSent(targets, ds)
            + (HearAll(groups, d) + ((Hears(before, d) + (own + Hears(behind, d))) + HearAll(others, d)))
            + HearSent(targets, es)
  {
    hide HearSent, HearAll, Hears;
    var targets := groups + ([before + ([l] + behind)] + others);
    HearSentJoins(targets, ds, [d] + es);
    HearSentJoins(targets, [d], es);
    HearAllJoins(groups, [before + ([l] + behind)] + others, d);
    HearAllJoins([before + ([l] + behind)], others, d);
    HearsJoins(before, [l] + behind, d);
    HearsJoins([l], behind, d);
    OneHears(targets, before + ([l] + behind), l, d);
  }

  lemma OneHears(targets: seq<seq<Listener>>, ls: seq<Listener>, l: Listener, d: Delivery)
    ensures HearSent(targets, [d]) == HearAll(targets, d)
    ensures HearAll([ls], d) == Hears(ls, d)
    ensures Hears([l], d) ==
            if l.protocol == d.protocol && l.callback != 0 then [Heard(l.callback, l.ref, d)] else []
  {
    assert [d][1..] == [] && [ls][1..] == [] && [l][1..] == [];
  }

  lemma HeardJoins(m: Bytes, a: seq<Call>, b: seq<Call>)
    ensures HeardOf(m, a + b) == HeardOf(m, a) + HeardOf(m, b)
  {
  }

  lemma {:induction false} ListHears(m: Bytes, ls: seq<Listener>, item: Item)
    ensures HeardOf(m, CallsOf(ls, item)) == Hears(ls, Seen(m, item))
  {
    if ls == [] {
    } else {
      var first := if ls[0].protocol == item.protocol && ls[0].callback != 0
        then [Call(ls[0].callback, ls[0].ref, item)] else [];
      HeardJoins(m, first, CallsOf(ls[1..], item));
      ListHears(m, ls[1..], item);
    }
  }

  lemma {:induction false} AllHear(m: Bytes, targets: seq<seq<Listener>>, item: Item)
    ensures HeardOf(m, CallsAll(targets, item)) == HearAll(targets, Seen(m, item))
  {
    if targets == [] {
    } else {
      HeardJoins(m, CallsOf(targets[0], item), CallsAll(targets[1..], item));
      ListHears(m, targets[0], item);
      AllHear(m, targets[1..], item);
    }
  }

  lemma {:induction false} ItemsHeard(m: Bytes, targets: seq<seq<Listener>>, items: seq<Item>)
    ensures HeardOf(m, CallsFor(targets, items)) == HearSent(targets, SeenAll(m, items))
  {
    if items == [] {
    } else {
      HeardJoins(m, CallsAll(targets, items[0]), CallsFor(targets, items[1..]));
      AllHear(m, targets, items[0]);
      ItemsHeard(m, targets, items[1..]);
      assert SeenAll(m, items)[1..] == SeenAll(m, items[1..]);
    }
  }

  /** From packer to listeners: a received block calls every matching listener
      once for every PDU packed, in order, with its protocol, CID and data. */
  lemma PackedIsHeard(c: Packing, owner: Bytes, ps: seq<Pdu>, m: Bytes, length: nat, targets: seq<seq<Listener>>)
    requires |owner| == 16 && (forall p :: p in ps ==> c.Allows(p)) && AllFit(c, None, ps)
    requires length + SLACK <= |m| && m[..length] == Block(c, owner, ps)
    ensures HeardOf(m, CallsFor(targets, Parse(m, length))) == HearSent(targets, Sent(owner, ps))
  {
    RoundTrip(c, owner, ps, m, length);
    ItemsHeard(m, targets, Parse(m, length));
  }

  /** From any sender to listeners: whatever flags follow a full first PDU, every
      matching listener is called once for every PDU, in order, with the protocol,
      the CID and the data of the last PDU that had them. */
  lemma AnySenderIsHeard(ps: seq<Senders.AnyPdu>, m: Bytes, length: nat, targets: seq<seq<Listener>>)
    requires ps != [] && ps[0].flags == Senders.FULL && Senders.AllOk(ps)
    requires length + SLACK <= |m| && m[..length] == PREAMBLE + Senders.WireAll(ps)
    ensures HeardOf(m, CallsFor(targets, Parse(m, length))) == HearSent(targets, Senders.CarriedAll(ps))
  {
    Senders.AnyFlagsRead(ps, m, length);
    ItemsHeard(m, targets, Parse(m, length));
  }
}
