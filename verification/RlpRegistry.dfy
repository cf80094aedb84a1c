/** Opening and closing receive groups as listeners come and go, with the
    multicast joins and leaves this causes (acnsrc/rlp/rlp.c). */
module RlpRegistry {
  import opened Word
  import opened Chains
  import opened RlpGroups

  // ----- The registry as a value -----

  /** A listed group with its listeners, newest first. */
  datatype Entry = Entry(socket: nat, addr: uint32, listeners: seq<Node<Listener>>)

  /** What is asked of the network layer. */
  datatype Op = Join(socket: nat, addr: uint32, ok: bool) | Leave(socket: nat, addr: uint32)

  predicate Has(v: seq<Entry>, socket: nat, addr: uint32) {
    exists i :: 0 <= i < |v| && v[i].socket == socket && v[i].addr == addr
  }

  /** Where the group is, or the length of the list. */
  function Find(v: seq<Entry>, socket: nat, addr: uint32): (i: nat)
    ensures i <= |v| && (i < |v| <==> Has(v, socket, addr))
    ensures i < |v| ==> v[i].socket == socket && v[i].addr == addr
  {
    if v == [] then 0
    else if v[0].socket == socket && v[0].addr == addr then 0
    else
      assert Has(v, socket, addr) ==> Has(v[1..], socket, addr) by {
        if Has(v, socket, addr) {
          var i :| 0 <= i < |v| && v[i].socket == socket && v[i].addr == addr;
          assert v[1..][i - 1] == v[i];
        }
      }
      assert Has(v[1..], socket, addr) ==> Has(v, socket, addr) by {
        if Has(v[1..], socket, addr) {
          var i :| 0 <= i < |v[1..]| && v[1..][i].socket == socket && v[1..][i].addr == addr;
          assert v[i + 1] == v[1..][i];
        }
      }
      1 + Find(v[1..], socket, addr)
  }

  predicate Unique(v: seq<Entry>) {
    forall i, j :: 0 <= i < j < |v| ==> !(v[i].socket == v[j].socket && v[i].addr == v[j].addr)
  }

  predicate Peopled(v: seq<Entry>) {
    forall i :: 0 <= i < |v| ==> v[i].listeners != [] && (v[i].addr == UNICAST || IsMulticast(v[i].addr))
  }

  /** Whether the network layer's last successful change was to join. */
  predicate Joined(t: seq<Op>, socket: nat, addr: uint32) {
    t != [] &&
    match t[|t| - 1]
    case Join(s, a, ok) => (s == socket && a == addr && ok) || Joined(t[..|t| - 1], socket, addr)
    case Leave(s, a) => !(s == socket && a == addr) && Joined(t[..|t| - 1], socket, addr)
  }

  /** A group is joined only when it is not, and left only when it is. */
  predicate Alternates(t: seq<Op>) {
    t == [] ||
    (Alternates(t[..|t| - 1]) &&
     match t[|t| - 1]
     case Join(s, a, _) => !Joined(t[..|t| - 1], s, a)
     case Leave(s, a) => Joined(t[..|t| - 1], s, a))
  }

  /** One group for each socket and address, each with a listener; joined are
      exactly the multicast groups on the list. */
  ghost predicate Sound(v: seq<Entry>, t: seq<Op>) {
    && Unique(v) && Peopled(v) && Alternates(t)
    && forall s, a :: Joined(t, s, a) <==> a != UNICAST && Has(v, s, a)
  }

  /** What decides the outcome of adding a listener besides the list: whether the
      pools have a free group and a free listener, and whether joining works. */
  datatype Luck = Luck(groupFree: bool, listenerFree: bool, joinOk: bool)

  /** Only groups and the own address are listened to; the latter is unicast. */
  function Normal(myip: uint32, addr: uint32): (r: int)
    ensures r >= 0 ==> r == UNICAST || (r < TWO32 && IsMulticast(r))
  {
    if addr == UNICAST || IsMulticast(addr) then addr else if addr == myip then UNICAST else -1
  }

  predicate Opens(v: seq<Entry>, socket: nat, addr: uint32, luck: Luck) {
    Has(v, socket, addr) || (luck.groupFree && (addr == UNICAST || luck.joinOk))
  }

  function Added(v: seq<Entry>, socket: nat, addr: uint32, luck: Luck, l: Node<Listener>): seq<Entry> {
    if !Opens(v, socket, addr, luck) || !luck.listenerFree then v
    else if Has(v, socket, addr) then
      var i := Find(v, socket, addr);
      v[i := v[i].(listeners := [l] + v[i].listeners)]
    else [Entry(socket, addr, [l])] + v
  }

  function AddOps(v: seq<Entry>, socket: nat, addr: uint32, luck: Luck): seq<Op> {
    if Has(v, socket, addr) || !luck.groupFree || addr == UNICAST then []
    else [Join(socket, addr, luck.joinOk)] + if luck.joinOk && !luck.listenerFree then [Leave(socket, addr)] else []
  }

  /** Listener `j` of group `i` goes, and with the last one the group. */
  function Deleted(v: seq<Entry>, i: nat, j: nat): seq<Entry>
    requires i < |v| && j < |v[i].listeners|
  {
    if |v[i].listeners| == 1 then Without(v, i) else v[i := v[i].(listeners := Without(v[i].listeners, j))]
  }

  function DelOps(v: seq<Entry>, i: nat): seq<Op>
    requires i < |v|
  {
    if |v[i].listeners| == 1 && v[i].addr != UNICAST then [Leave(v[i].socket, v[i].addr)] else []
  }

  lemma JoinedStep(t: seq<Op>, op: Op, s: nat, a: uint32)
    ensures Joined(t + [op], s, a) == (if op.socket == s && op.addr == a
                                       then (if op.Join? then op.ok || Joined(t, s, a) else false)
                                       else Joined(t, s, a))
    ensures Alternates(t + [op]) == (Alternates(t) && (op.Join? <==> !Joined(t, op.socket, op.addr)))
  {
    assert (t + [op])[..|t|] == t;
  }

  lemma HasAdded(v: seq<Entry>, socket: nat, addr: uint32, luck: Luck, l: Node<Listener>, s: nat, a: uint32)
    ensures Has(Added(v, socket, addr, luck, l), s, a) <==>
            Has(v, s, a) || (s == socket && a == addr && Opens(v, socket, addr, luck) && luck.listenerFree)
  {
    var r := Added(v, socket, addr, luck, l);
    if Opens(v, socket, addr, luck) && luck.listenerFree {
      if !Has(v, socket, addr) {
        assert r[1..] == v && r[0].socket == socket && r[0].addr == addr;
        if Has(v, s, a) {
          var i :| 0 <= i < |v| && v[i].socket == s && v[i].addr == a;
          assert r[i + 1] == v[i];
        }
      } else {
        assert |r| == |v| && forall i :: 0 <= i < |v| ==> r[i].socket == v[i].socket && r[i].addr == v[i].addr;
      }
    }
  }

  lemma AddKeepsSound(v: seq<Entry>, t: seq<Op>, socket: nat, addr: uint32, luck: Luck, l: Node<Listener>)
    requires Sound(v, t) && (addr == UNICAST || IsMulticast(addr))
    ensures Sound(Added(v, socket, addr, luck, l), t + AddOps(v, socket, addr, luck))
  {
    var ops := AddOps(v, socket, addr, luck);
    forall s, a ensures Joined(t + ops, s, a) <==> a != UNICAST && Has(Added(v, socket, addr, luck, l), s, a) {
      HasAdded(v, socket, addr, luck, l, s, a);
      OpsStep(t, ops, s, a);
    }
    OpsStep(t, ops, socket, addr);
  }

  /** The effect of at most two requests. */
  lemma OpsStep(t: seq<Op>, ops: seq<Op>, s: nat, a: uint32)
    requires |ops| <= 2
    ensures |ops| == 0 ==> t + ops == t
    ensures |ops| >= 1 ==> var t1 := t + [ops[0]];
              && (|ops| == 1 ==> t + ops == t1) && (|ops| == 2 ==> t + ops == t1 + [ops[1]])
              && Joined(t1, s, a) == (if ops[0].socket == s && ops[0].addr == a
                                      then (ops[0].Join? && (ops[0].ok || Joined(t, s, a)))
                                      else Joined(t, s, a))
              && Alternates(t1) == (Alternates(t) && (ops[0].Join? <==> !Joined(t, ops[0].socket, ops[0].addr)))
              && (|ops| == 2 ==>
                    && Joined(t + ops, s, a) == (if ops[1].socket == s && ops[1].addr == a
                                                 then (ops[1].Join? && (ops[1].ok || Joined(t1, s, a)))
                                                 else Joined(t1, s, a))
                    && Alternates(t + ops) ==
                      (Alternates(t1) && (ops[1].Join? <==> !Joined(t1, ops[1].socket, ops[1].addr))))
  {
    if |ops| >= 1 {
      JoinedStep(t, ops[0], s, a);
      assert |ops| == 1 ==> t + ops == t + [ops[0]];
    }
    if |ops| == 2 {
      JoinedStep(t + [ops[0]], ops[1], s, a);
      assert t + ops == t + [ops[0]] + [ops[1]];
    }
  }

  lemma HasDeleted(v: seq<Entry>, i: nat, j: nat, s: nat, a: uint32)
    requires i < |v| && j < |v[i].listeners| && Unique(v)
    ensures Has(Deleted(v, i, j), s, a) <==>
            Has(v, s, a) && !(s == v[i].socket && a == v[i].addr && |v[i].listeners| == 1)
  {
    var r := Deleted(v, i, j);
    if |v[i].listeners| == 1 {
      if Has(v, s, a) && !(s == v[i].socket && a == v[i].addr) {
        var k :| 0 <= k < |v| && v[k].socket == s && v[k].addr == a;
        assert r[if k < i then k else k - 1] == v[k];
      }
      if Has(r, s, a) {
        var k :| 0 <= k < |r| && r[k].socket == s && r[k].addr == a;
        assert r[k] == v[if k < i then k else k + 1];
      }
    } else {
      assert |r| == |v| && forall k :: 0 <= k < |v| ==> r[k].socket == v[k].socket && r[k].addr == v[k].addr;
    }
  }

  lemma DeletedShape(v: seq<Entry>, i: nat, j: nat)
    requires i < |v| && j < |v[i].listeners| && Unique(v) && Peopled(v)
    ensures Unique(Deleted(v, i, j)) && Peopled(Deleted(v, i, j))
  {
    var r := Deleted(v, i, j);
    if |v[i].listeners| == 1 {
      forall k | 0 <= k < |r| ensures r[k] == v[if k < i then k else k + 1] {
      }
    }
  }

  lemma DelKeepsSound(v: seq<Entry>, t: seq<Op>, i: nat, j: nat)
    requires Sound(v, t) && i < |v| && j < |v[i].listeners|
    ensures Sound(Deleted(v, i, j), t + DelOps(v, i))
  {
    hide Deleted, Unique, Peopled, Joined, Alternates;
    var ops := DelOps(v, i);
    DeletedShape(v, i, j);
    assert Has(v, v[i].socket, v[i].addr);
    forall s, a ensures Joined(t + ops, s, a) <==> a != UNICAST && Has(Deleted(v, i, j), s, a) {
      HasDeleted(v, i, j, s, a);
      OpsStep(t, ops, s, a);
    }
    OpsStep(t, ops, v[i].socket, v[i].addr);
  }

  // ----- Runs -----

  datatype Request = Add(socket: nat, addr: uint32, luck: Luck, l: Node<Listener>) | Del(i: nat, j: nat)

  /** The list and the requests to the network layer after one request; a request
      for an illegal address or a listener that is not there changes nothing. */
  function Step(myip: uint32, v: seq<Entry>, t: seq<Op>, r: Request): (seq<Entry>, seq<Op>) {
    match r
    case Add(socket, addr, luck, l) =>
      var a := Normal(myip, addr);
      if a < 0 then (v, t) else (Added(v, socket, a, luck, l), t + AddOps(v, socket, a, luck))
    case Del(i, j) =>
      if i < |v| && j < |v[i].listeners| then (Deleted(v, i, j), t + DelOps(v, i)) else (v, t)
  }

  /** The listener is the newest of its group. */
  predicate Newest(v: seq<Entry>, socket: nat, addr: uint32, l: Node<Listener>) {
    var i := Find(v, socket, addr);
    i < |v| && v[i].listeners != [] && v[i].listeners[0] == l
  }

  /** Where a listener for `addr` goes: 224.0.0.0 to 239.255.255.255 are groups of
      their own, the own address and 0 are unicast, and any other address is
      refused without effect, whatever the list, the pools and the network. */
  lemma GoesWhere(myip: uint32, v: seq<Entry>, t: seq<Op>, socket: nat, addr: uint32, luck: Luck, l: Node<Listener>)
    ensures var r := Step(myip, v, t, Add(socket, addr, luck, l)).0;
            var group, lucky := 0xe000_0000 <= addr <= 0xefff_ffff, luck.listenerFree && luck.groupFree;
            && (group && lucky && luck.joinOk ==> Newest(r, socket, addr, l))
            && (!group && (addr == 0 || addr == myip) && lucky ==> Newest(r, socket, 0, l))
            && (!group && addr != 0 && addr != myip ==> Step(myip, v, t, Add(socket, addr, luck, l)) == (v, t))
  {
    hide Has;
    var a := Normal(myip, addr);
    if a >= 0 && !Has(v, socket, a) {
      FindIs([Entry(socket, a, [l])] + v, socket, a, 0);
    } else if a >= 0 && luck.listenerFree {
      var i := Find(v, socket, a);
      FoundFirst(v, socket, a);
      FindIs(Added(v, socket, a, luck, l), socket, a, i);
    }
  }

  lemma {:induction false} FoundFirst(v: seq<Entry>, socket: nat, addr: uint32)
    ensures forall j :: 0 <= j < Find(v, socket, addr) ==> !(v[j].socket == socket && v[j].addr == addr)
  {
    hide Has;
    if v == [] || (v[0].socket == socket && v[0].addr == addr) {
    } else {
      FoundFirst(v[1..], socket, addr);
      assert forall j :: 1 <= j < |v| ==> v[j] == v[1..][j - 1];
    }
  }

  function Run(myip: uint32, rs: seq<Request>): (seq<Entry>, seq<Op>) {
    if rs == [] then ([], [])
    else
      var (v, t) := Run(myip, rs[..|rs| - 1]);
      Step(myip, v, t, rs[|rs| - 1])
  }

  /** Whatever is added and deleted, and whatever fails on the way. */
  lemma {:induction false} RunSound(myip: uint32, rs: seq<Request>)
    ensures Sound(Run(myip, rs).0, Run(myip, rs).1)
  {
    if rs == [] {
    } else {
      RunSound(myip, rs[..|rs| - 1]);
      var (v, t) := Run(myip, rs[..|rs| - 1]);
      match rs[|rs| - 1]
      case Add(socket, addr, luck, l) =>
        if Normal(myip, addr) >= 0 {
          AddKeepsSound(v, t, socket, Normal(myip, addr), luck, l);
        }
      case Del(i, j) =>
        if i < |v| && j < |v[i].listeners| {
          DelKeepsSound(v, t, i, j);
        }
    }
  }

  // ----- The list seen as the registry -----

  function ViewOf(gs: seq<Group>, ls: seq<seq<Node<Listener>>>): (v: seq<Entry>)
    ensures |v| == |gs|
  {
    seq(|gs|, i requires 0 <= i < |gs| =>
      Entry(gs[i].socket, gs[i].addr, if gs[i].slot < |ls| then ls[gs[i].slot] else []))
  }

  predicate HasSlot(gs: seq<Group>, k: nat) {
    exists i :: 0 <= i < |gs| && gs[i].slot == k
  }

  /** Listed groups use different slots, and only their lists hold listeners. */
  ghost predicate Fits(gs: seq<Group>, ls: seq<seq<Node<Listener>>>) {
    && (forall i :: 0 <= i < |gs| ==> gs[i].slot < |ls|)
    && (forall i, j :: 0 <= i < j < |gs| ==> gs[i].slot != gs[j].slot)
    && (forall k :: 0 <= k < |ls| && ls[k] != [] ==> HasSlot(gs, k))
  }

  lemma FindIs(v: seq<Entry>, socket: nat, addr: uint32, i: nat)
    requires i <= |v| && (i < |v| ==> v[i].socket == socket && v[i].addr == addr)
    requires forall j :: 0 <= j < i ==> !(v[j].socket == socket && v[j].addr == addr)
    ensures Find(v, socket, addr) == i
  {
    if i == 0 {
    } else {
      assert forall j :: 0 <= j < i - 1 ==> v[1..][j] == v[j + 1];
      FindIs(v[1..], socket, addr, i - 1);
    }
  }

  lemma ViewCons(gs: seq<Group>, ls: seq<seq<Node<Listener>>>, g: Group)
    requires g.slot < |ls|
    ensures ViewOf([g] + gs, ls) == [Entry(g.socket, g.addr, ls[g.slot])] + ViewOf(gs, ls)
  {
  }

  lemma SlotsCons(gs: seq<Group>, g: Group, k: nat)
    requires HasSlot(gs, k)
    ensures HasSlot([g] + gs, k)
  {
    var i :| 0 <= i < |gs| && gs[i].slot == k;
    assert ([g] + gs)[i + 1].slot == k;
  }

  lemma ViewNewGroup(gs: seq<Group>, ls: seq<seq<Node<Listener>>>, g: Group)
    requires Fits(gs, ls) && g.slot < |ls| && forall h :: h in gs ==> h.slot != g.slot
    ensures Fits([g] + gs, ls) && ViewOf([g] + gs, ls) == [Entry(g.socket, g.addr, [])] + ViewOf(gs, ls)
  {
    hide ViewOf;
    ViewCons(gs, ls, g);
    assert !HasSlot(gs, g.slot);
    assert ls[g.slot] == [];
    forall k | 0 <= k < |ls| && ls[k] != [] ensures HasSlot([g] + gs, k) {
      SlotsCons(gs, g, k);
    }
  }

  lemma ViewWithout(gs: seq<Group>, ls: seq<seq<Node<Listener>>>, i: nat)
    requires i < |gs|
    ensures ViewOf(Without(gs, i), ls) == Without(ViewOf(gs, ls), i)
  {
  }

  lemma SlotsWithout(gs: seq<Group>, i: nat, k: nat)
    requires i < |gs| && k != gs[i].slot && HasSlot(gs, k)
    ensures HasSlot(Without(gs, i), k)
  {
    var j :| 0 <= j < |gs| && gs[j].slot == k;
    assert Without(gs, i)[if j < i then j else j - 1].slot == k;
  }

  lemma ViewFreeGroup(gs: seq<Group>, ls: seq<seq<Node<Listener>>>, i: nat)
    requires Fits(gs, ls) && i < |gs| && ls[gs[i].slot] == []
    ensures Fits(Without(gs, i), ls) && ViewOf(Without(gs, i), ls) == Without(ViewOf(gs, ls), i)
  {
    hide HasSlot, ViewOf;
    ViewWithout(gs, ls, i);
    forall k | 0 <= k < |ls| && ls[k] != [] ensures HasSlot(Without(gs, i), k) {
      SlotsWithout(gs, i, k);
    }
  }

  lemma ViewChange(gs: seq<Group>, ls: seq<seq<Node<Listener>>>, i: nat, l: seq<Node<Listener>>)
    requires Fits(gs, ls) && i < |gs|
    ensures var r := ls[gs[i].slot := l];
            Fits(gs, r) && ViewOf(gs, r) == ViewOf(gs, ls)[i := ViewOf(gs, ls)[i].(listeners := l)]
  {
    var r := ls[gs[i].slot := l];
    forall k | 0 <= k < |r| && r[k] != [] ensures HasSlot(gs, k) {
      if k == gs[i].slot {
        assert HasSlot(gs, k);
      }
    }
  }

  lemma SoundPeopled(v: seq<Entry>, t: seq<Op>)
    requires Sound(v, t)
    ensures Peopled(v)
  {
  }

  lemma FailKeepsSound(v: seq<Entry>, t: seq<Op>, socket: nat, addr: uint32, luck: Luck)
    requires Sound(v, t) && !(Opens(v, socket, addr, luck) && luck.listenerFree)
    ensures Sound(v, t + AddOps(v, socket, addr, luck))
  {
    var ops := AddOps(v, socket, addr, luck);
    forall s, a ensures Joined(t + ops, s, a) <==> a != UNICAST && Has(v, s, a) {
      OpsStep(t, ops, s, a);
    }
    OpsStep(t, ops, socket, addr);
  }

  /** The list between opening a group and giving it its listener, and what the
      latter or its failure make of it. */
  lemma AddForm(v: seq<Entry>, socket: nat, addr: uint32, luck: Luck, l: Node?<Listener>)
    requires Peopled(v) && Opens(v, socket, addr, luck)
    ensures var had := Has(v, socket, addr);
            var v1, i := (if had then [] else [Entry(socket, addr, [])]) + v, if had then Find(v, socket, addr) else 0;
            && (l != null && luck.listenerFree ==>
                  Added(v, socket, addr, luck, l) == v1[i := v1[i].(listeners := [l] + v1[i].listeners)])
            && (if had then v1 == v && v1[i].listeners != [] else v1[i].listeners == [] && Without(v1, i) == v)
  {
    if Has(v, socket, addr) {
      assert [] + v == v;
    } else {
      assert Without([Entry(socket, addr, [])] + v, 0) == v;
      if l != null {
        assert [l] + [] == [l];
        assert ([Entry(socket, addr, [])] + v)[0 := Entry(socket, addr, [l])] == [Entry(socket, addr, [l])] + v;
      }
    }
  }

  /** What opening a group asks of the network layer, and what is asked later if
      no listener is left for it. */
  lemma OpenForm(v: seq<Entry>, t: seq<Op>, socket: nat, addr: uint32, luck: Luck)
    ensures var had := Has(v, socket, addr);
            var first := if !had && luck.groupFree && addr != UNICAST then [Join(socket, addr, luck.joinOk)] else [];
            var gone := !had && !luck.listenerFree && addr != UNICAST;
            && (Opens(v, socket, addr, luck) <==> had || (luck.groupFree && (addr == UNICAST || luck.joinOk)))
            && [] + v == v
            && (!Opens(v, socket, addr, luck) ==> t + AddOps(v, socket, addr, luck) == t + first)
            && (Opens(v, socket, addr, luck) ==>
                  t + AddOps(v, socket, addr, luck) == (t + first) + if gone then [Leave(socket, addr)] else [])
  {
    hide Has;
  }

  lemma DelForm(v: seq<Entry>, i: nat, j: nat)
    requires i < |v| && j < |v[i].listeners|
    ensures var v1 := v[i := v[i].(listeners := Without(v[i].listeners, j))];
            && (v1[i].listeners == [] <==> |v[i].listeners| == 1)
            && Deleted(v, i, j) == (if v1[i].listeners == [] then Without(v1, i) else v1)
            && DelOps(v, i) == (if v1[i].listeners == [] && v[i].addr != UNICAST
                                then [Leave(v[i].socket, v[i].addr)] else [])
  {
    var v1 := v[i := v[i].(listeners := Without(v[i].listeners, j))];
    assert Without(v1, i) == Without(v, i);
  }

  // ----- The code -----

  class Registry {
    const groups: GroupList
    const pool: ListenerPool
    const myip: uint32
    ghost var trace: seq<Op>

    constructor (groups: GroupList, pool: ListenerPool, myip: uint32)
      requires groups.Listed() && pool.Listed() && |pool.members| == |groups.slots| && groups.list.nodes == []
      requires forall k :: 0 <= k < |pool.members| ==> pool.Lists()[k] == []
      ensures Valid() && View() == [] && trace == []
      ensures this.groups == groups && this.pool == pool && this.myip == myip
    {
      this.groups, this.pool, this.myip, trace := groups, pool, myip, [];
    }

    ghost predicate Shape()
      reads groups.list, groups.list.nodes, groups.slots, pool.members, pool.slots
    {
      && groups.Listed() && pool.Listed() && |pool.members| == |groups.slots|
      && Fits(groups.Groups(), pool.Lists())
    }

    ghost function View(): seq<Entry>
      reads groups.list, groups.list.nodes, pool.members
    {
      ViewOf(groups.Groups(), pool.Lists())
    }

    ghost predicate Valid()
      reads `trace, groups.list, groups.list.nodes, groups.slots, pool.members, pool.slots
    {
      Shape() && Sound(View(), trace)
    }

    ghost predicate GroupFree()
      reads groups.list
    {
      |groups.list.nodes| < |groups.slots|
    }

    ghost predicate ListenerFree()
      reads pool.slots
    {
      exists m :: m in pool.slots && m.val.protocol == 0
    }

    /** Put a new group on the list and join it; a group that cannot be joined is
        taken off again. */
    method NewGroup(socket: nat, addr: uint32, joinOk: bool, ghost ls: seq<seq<Node<Listener>>>)
      returns (n: Node?<Group>)
      requires groups.Listed() && |ls| == |groups.slots| && Fits(groups.Groups(), ls) && socket != 0
      requires (addr == UNICAST || IsMulticast(addr)) && groups.FirstAt(socket, addr, |groups.list.nodes|)
      modifies `trace, groups.list`head, groups.list`nodes, groups.slots`next, groups.slots`val
      ensures groups.Listed() && Fits(groups.Groups(), ls)
      ensures n != null <==> old(GroupFree()) && (addr == UNICAST || joinOk)
      ensures ViewOf(groups.Groups(), ls) ==
              (if n == null then [] else [Entry(socket, addr, [])]) + old(ViewOf(groups.Groups(), ls))
      ensures trace == old(trace) + if old(GroupFree()) && addr != UNICAST then [Join(socket, addr, joinOk)] else []
      ensures n != null ==>
              groups.list.nodes == [n] + old(groups.list.nodes) && n.val == Group(socket, addr, n.val.slot)
    {
      hide GroupList.Listed, GroupList.FirstAt, Fits, ViewOf;
      ghost var gs := groups.Groups();
      groups.Room();
      groups.OnlyFirst(socket, addr);
      ghost var i;
      n, i := groups.New(socket, addr);
      if n == null { return; }
      ViewNewGroup(gs, ls, groups.Groups()[0]);
      if addr != UNICAST {
        trace := trace + [Join(socket, addr, joinOk)];
        if !joinOk {
          assert Without(groups.Groups(), 0) == gs;
          groups.FreeAt(n, 0);
          n := null;
        }
      }
    }

    /** What the search says about the list as a value. */
    lemma FoundIs(socket: nat, addr: uint32, i: nat, ls: seq<seq<Node<Listener>>>)
      requires groups.FirstAt(socket, addr, i)
      ensures var v := ViewOf(groups.Groups(), ls);
              i <= |groups.list.nodes| && Find(v, socket, addr) == i
                && (Has(v, socket, addr) <==> i < |groups.list.nodes|) && [] + v == v
    {
      FindIs(ViewOf(groups.Groups(), ls), socket, addr, i);
    }

    /** `rlp_open_rxgroup`, for an address already checked. */
    method OpenGroup(socket: nat, addr: uint32, joinOk: bool, ghost ls: seq<seq<Node<Listener>>>)
      returns (n: Node?<Group>, ghost i: nat)
      requires groups.Listed() && |ls| == |groups.slots| && Fits(groups.Groups(), ls) && socket != 0
      requires addr == UNICAST || IsMulticast(addr)
      modifies `trace, groups.list`head, groups.list`nodes, groups.slots`next, groups.slots`val
      ensures groups.Listed() && Fits(groups.Groups(), ls)
      ensures var v, had := old(ViewOf(groups.Groups(), ls)), old(Has(ViewOf(groups.Groups(), ls), socket, addr));
              && (n != null <==> had || (old(GroupFree()) && (addr == UNICAST || joinOk)))
              && ViewOf(groups.Groups(), ls) == (if n == null || had then [] else [Entry(socket, addr, [])]) + v
              && trace == old(trace) + (if !had && old(GroupFree()) && addr != UNICAST
                                       then [Join(socket, addr, joinOk)] else [])
              && (n != null ==>
                i < |groups.list.nodes| && groups.list.nodes[i] == n && i == if had then Find(v, socket, addr) else 0)
      ensures n != null ==> n.val.addr == addr && n.val.socket == socket
    {
      hide GroupList.Listed, GroupList.Groups, GroupList.FirstAt, Fits, Has;
      hide Find, ViewOf, Chain.Linked, Distinct, GroupFree, IsMulticast;
      groups.IsLinked();
      n, i := groups.Find(socket, addr);
      FoundIs(socket, addr, i, ls);
      if n != null { return; }
      n := NewGroup(socket, addr, joinOk, ls);
      i := 0;
    }

    /** `rlp_close_rxgroup`; `members` is the listener list of the group. */
    method CloseGroup(socket: nat, n: Node<Group>, members: Chain<Listener>, ghost i: nat,
        ghost ls: seq<seq<Node<Listener>>>)
      requires groups.Listed() && |ls| == |groups.slots| && Fits(groups.Groups(), ls)
      requires i < |groups.list.nodes| && groups.list.nodes[i] == n && n.val.socket == socket
      requires n.val.slot < |ls| && ls[n.val.slot] == members.nodes && members.Linked()
      modifies `trace, groups.list`head, groups.list`nodes, groups.slots`next, groups.slots`val
      ensures groups.Listed() && Fits(groups.Groups(), ls)
      ensures var v, addr := old(ViewOf(groups.Groups(), ls)), old(n.val.addr);
              && ViewOf(groups.Groups(), ls) == (if v[i].listeners == [] then Without(v, i) else v)
              && trace == old(trace) + (if v[i].listeners == [] && addr != UNICAST then [Leave(socket, addr)] else [])
    {
      hide GroupList.Listed, Fits, Without;
      if members.head != null { return; }
      ghost var gs := groups.Groups();
      ViewFreeGroup(gs, ls, i);
      if n.val.addr != UNICAST {
        trace := trace + [Leave(socket, n.val.addr)];
      }
      groups.FreeAt(n, i);
    }

    /** What is known of a listed group. */
    lemma GroupReady(g: Node<Group>, i: nat)
      requires Shape() && i < |groups.list.nodes| && groups.list.nodes[i] == g
      ensures groups.Listed() && pool.Listed() && Fits(groups.Groups(), pool.Lists())
      ensures |pool.members| == |groups.slots|
      ensures var k := g.val.slot;
              && k < |pool.members| && groups.Groups()[i] == g.val
              && View()[i] == Entry(g.val.socket, g.val.addr, pool.Lists()[k])
              && pool.members[k] in pool.members && pool.members[k].Linked() && pool.Lists()[k] == pool.members[k].nodes
    {
      assert groups.Groups()[i] == g.val;
      assert pool.OnList(g.val.slot);
    }

    /** Give an open group a listener, or close it again if it has none. */
    method Populate(socket: nat, g: Node<Group>, protocol: uint32, callback: nat, ref: nat, ghost i: nat)
      returns (l: Node?<Listener>)
      requires Shape() && i < |groups.list.nodes| && groups.list.nodes[i] == g
      requires g.val.socket == socket != 0 && protocol != 0
      modifies `trace, groups.list`head, groups.list`nodes, groups.slots`next, groups.slots`val
      modifies pool.members`head, pool.members`nodes, pool.slots`next, pool.slots`val
      ensures Shape()
      ensures l != null <==> old(ListenerFree())
      ensures var v, addr := old(View()), old(g.val.addr);
              var gone := l == null && v[i].listeners == [];
              && View() == (if l != null then v[i := v[i].(listeners := [l] + v[i].listeners)]
                else if gone then Without(v, i) else v)
              && trace == old(trace) + (if gone && addr != UNICAST then [Leave(socket, addr)] else [])
      ensures l != null ==> l in pool.slots && old(l.val.protocol) == 0
                            && l.val.protocol == protocol && l.val.callback == callback && l.val.ref == ref
      ensures forall m :: m in pool.slots && m != l ==> m.val == old(m.val)
    {
      hide GroupList.Listed, ListenerPool.Listed, Fits, ViewOf, Without, ListenerPool.Lists, ListenerPool.OnList;
      GroupReady(g, i);
      ghost var gs, ls := groups.Groups(), pool.Lists();
      l := pool.New(g.val.slot, protocol, callback, ref);
      if l == null {
        GroupReady(g, i);
        CloseGroup(socket, g, pool.members[g.val.slot], i, ls);
      } else {
        ViewChange(gs, ls, i, [l] + ls[g.val.slot]);
      }
    }

    /** Open the group and give it a listener. */
    method Register(socket: nat, addr: uint32, protocol: uint32, callback: nat, ref: nat, joinOk: bool)
      returns (l: Node?<Listener>)
      requires Shape() && Peopled(View()) && socket != 0 && protocol != 0 && (addr == UNICAST || IsMulticast(addr))
      modifies `trace, groups.list`head, groups.list`nodes, groups.slots`next, groups.slots`val
      modifies pool.members`head, pool.members`nodes, pool.slots`next, pool.slots`val
      ensures Shape()
      ensures var v, luck := old(View()), old(Luck(GroupFree(), ListenerFree(), joinOk));
              && (l != null <==> Opens(v, socket, addr, luck) && luck.listenerFree)
              && View() == (if l == null then v else Added(v, socket, addr, luck, l))
              && trace == old(trace) + AddOps(v, socket, addr, luck)
      ensures l != null ==> l in pool.slots && old(l.val.protocol) == 0
                            && l.val.protocol == protocol && l.val.callback == callback && l.val.ref == ref
      ensures forall m :: m in pool.slots && m != l ==> m.val == old(m.val)
    {
      hide GroupList.Listed, ListenerPool.Listed, GroupList.Groups;
      hide ListenerPool.Lists, ListenerPool.OnList, ListenerPool.InSlots;
      hide Fits, ViewOf, Without, Peopled, Added, Has, Find, Opens, AddOps, IsMulticast, Chain.Linked, Distinct;
      ghost var v, luck := View(), Luck(GroupFree(), ListenerFree(), joinOk);
      var g; ghost var i;
      OpenForm(v, trace, socket, addr, luck);
      g, i := OpenGroup(socket, addr, joinOk, pool.Lists());
      if g == null { return null; }
      l := Populate(socket, g, protocol, callback, ref, i);
      AddForm(v, socket, addr, luck, l);
    }

    /** `rlp_add_listener`; null stands for failure. */
    method AddListener(socket: nat, addr: uint32, protocol: uint32, callback: nat, ref: nat, joinOk: bool)
      returns (l: Node?<Listener>)
      requires Valid() && socket != 0 && protocol != 0
      modifies `trace, groups.list`head, groups.list`nodes, groups.slots`next, groups.slots`val
      modifies pool.members`head, pool.members`nodes, pool.slots`next, pool.slots`val
      ensures Valid()
      ensures var v, luck, a := old(View()), old(Luck(GroupFree(), ListenerFree(), joinOk)), Normal(myip, addr);
              && (l != null <==> a >= 0 && Opens(v, socket, a, luck) && luck.listenerFree)
              && View() == (if l == null then v else Added(v, socket, a, luck, l))
              && trace == old(trace) + (if a < 0 then [] else AddOps(v, socket, a, luck))
      ensures l != null ==> l in pool.slots && old(l.val.protocol) == 0
                            && l.val.protocol == protocol && l.val.callback == callback && l.val.ref == ref
      ensures forall m :: m in pool.slots && m != l ==> m.val == old(m.val)
    {
      hide Shape, Sound, ViewOf, Added, AddOps, Opens, IsMulticast;
      ghost var v, t, luck := View(), trace, Luck(GroupFree(), ListenerFree(), joinOk);
      SoundPeopled(v, t);
      var a := addr;
      if a != UNICAST && !IsMulticast(a) {
        if a != myip { return null; }
        a := UNICAST;
      }
      l := Register(socket, a, protocol, callback, ref, joinOk);
      if l != null {
        AddKeepsSound(v, t, socket, a, luck, l);
      } else {
        FailKeepsSound(v, t, socket, a, luck);
      }
    }

    /** A listener in use is on the list of a listed group. */
    lemma ListenerReady(l: Node<Listener>) returns (i: nat)
      requires Shape() && l in pool.slots && l.val.protocol != 0
      ensures var k := l.val.group;
              && k < |groups.slots| && i < |groups.list.nodes| && groups.list.nodes[i] == groups.slots[k]
              && groups.slots[k].val.slot == k
              && forall x :: 0 <= x < |pool.List(k).nodes| ==> pool.List(k).nodes[x] in pool.slots
      ensures pool.members[l.val.group] in pool.members && pool.Listed()
    {
      var k := l.val.group;
      assert pool.OnList(k);
      assert pool.Lists()[k] != [];
      assert HasSlot(groups.Groups(), k);
      i :| 0 <= i < |groups.Groups()| && groups.Groups()[i].slot == k;
      assert groups.list.nodes[i] in groups.slots;
    }

    /** Take a listener off its group's list, and the group with the last one. */
    method Unregister(socket: nat, l: Node<Listener>) returns (ghost i: nat, ghost j: nat)
      requires Shape() && l in pool.slots && l.val.protocol != 0
      requires l.val.group < |groups.slots| && groups.slots[l.val.group].val.socket == socket
      modifies `trace, groups.list`head, groups.list`nodes, groups.slots`next, groups.slots`val
      modifies pool.members`head, pool.members`nodes, pool.slots`next, pool.slots`val
      ensures Shape()
      ensures var v := old(View());
              && i < |v| && j < |v[i].listeners| && v[i].listeners[j] == l && v[i].socket == socket
              && View() == Deleted(v, i, j) && trace == old(trace) + DelOps(v, i)
      ensures l.val.protocol == 0
      ensures forall m :: m in pool.slots && m != l ==> m.val == old(m.val)
    {
      hide GroupList.Listed, ListenerPool.Listed, ListenerPool.Lists, ListenerPool.OnList, ListenerPool.InSlots;
      hide Fits, ViewOf, Without, Deleted, Has, Find, Chain.Linked, Distinct, DelOps;
      ghost var v := View();
      i := ListenerReady(l);
      var k := l.val.group;
      GroupReady(groups.slots[k], i);
      ghost var gs, ls := groups.Groups(), pool.Lists();
      j := pool.Free(l);
      ViewChange(gs, ls, i, pool.Lists()[k]);
      DelForm(v, i, j);
      GroupReady(groups.slots[k], i);
      CloseGroup(socket, groups.slots[k], pool.members[k], i, pool.Lists());
    }

    /** `rlp_del_listener`, on a listener that was added and not yet deleted. */
    method DelListener(socket: nat, l: Node<Listener>) returns (ghost i: nat, ghost j: nat)
      requires Valid() && l in pool.slots && l.val.protocol != 0
      requires l.val.group < |groups.slots| && groups.slots[l.val.group].val.socket == socket
      modifies `trace, groups.list`head, groups.list`nodes, groups.slots`next, groups.slots`val
      modifies pool.members`head, pool.members`nodes, pool.slots`next, pool.slots`val
      ensures Valid()
      ensures var v := old(View());
              && i < |v| && j < |v[i].listeners| && v[i].listeners[j] == l && v[i].socket == socket
              && View() == Deleted(v, i, j) && trace == old(trace) + DelOps(v, i)
      ensures l.val.protocol == 0
      ensures forall m :: m in pool.slots && m != l ==> m.val == old(m.val)
    {
      hide Shape, Sound, ViewOf, Deleted, DelOps;
      ghost var v, t := View(), trace;
      i, j := Unregister(socket, l);
      DelKeepsSound(v, t, i, j);
    }
  }
}
