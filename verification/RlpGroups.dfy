/** Receive groups and their listeners: two pools of slots, a list of groups, and
    a list of listeners for each group (acnsrc/rlp/rlp.c, acnsrc/rlp/rlpmem.c). */
module RlpGroups {
  import opened Word
  import opened Chains

  /** `rlp_rxgroup_t`. Socket 0 is NULL and marks a free slot; `slot` is the
      group's index in the pool, by which listeners refer to it. */
  datatype Group = Group(socket: nat, addr: uint32, slot: nat)

  /** `rlp_listener_t`. Protocol 0 (PROTO_NONE) marks a free slot. */
  datatype Listener = Listener(protocol: uint32, callback: nat, ref: nat, group: nat)

  const UNICAST: uint32 := 0

  predicate IsMulticast(addr: uint32) {
    addr / 0x1000_0000 == 0xe
  }

  /** Every address that is not a group counts as unicast. */
  function Grouped(addr: uint32): uint32 {
    if IsMulticast(addr) then addr else UNICAST
  }

  // ----- Groups -----

  class GroupList {
    const slots: seq<Node<Group>>
    const list: Chain<Group>

    constructor (slots: seq<Node<Group>>)
      requires Distinct(slots) && forall i :: 0 <= i < |slots| ==> slots[i].val == Group(0, 0, i)
      ensures Listed() && list.nodes == [] && this.slots == slots
    {
      this.slots := slots;
      list := new Chain();
    }

    /** A slot is in use exactly when it is on the list. */
    ghost predicate Listed()
      reads list, list.nodes`next, slots`val
    {
      && list.Linked() && Distinct(slots)
      && (forall n :: n in list.nodes ==> n in slots)
      && (forall i :: 0 <= i < |slots| ==>
        slots[i].val.slot == i && (slots[i].val.socket != 0 <==> slots[i] in list.nodes))
    }

    ghost function Groups(): seq<Group>
      reads list, list.nodes
    {
      Values(list.nodes)
    }

    /** The first group of the socket and address is at `i`, or there is none. */
    ghost predicate FirstAt(socket: nat, addr: uint32, i: nat)
      reads list, list.nodes
    {
      && i <= |list.nodes|
      && (i < |list.nodes| ==> list.nodes[i].val.socket == socket && list.nodes[i].val.addr == addr)
      && forall j :: 0 <= j < i ==> !(list.nodes[j].val.socket == socket && list.nodes[j].val.addr == addr)
    }

    /** `rlpm_find_rxgroup` */
    method Find(socket: nat, addr: uint32) returns (n: Node?<Group>, ghost i: nat)
      requires list.Linked()
      ensures FirstAt(socket, Grouped(addr), i) && n == At(list.nodes, i)
    {
      var a := if IsMulticast(addr) then addr else UNICAST;
      n, i := list.head, 0;
      while n != null
        invariant i <= |list.nodes| && n == At(list.nodes, i)
        invariant forall j :: 0 <= j < i ==> !(list.nodes[j].val.socket == socket && list.nodes[j].val.addr == a)
        decreases |list.nodes| - i
      {
        if n.val.socket == socket && n.val.addr == a { return; }
        n, i := n.next, i + 1;
      }
    }

    /** `__new_rxgroup` */
    method FreeSlot() returns (n: Node?<Group>)
      requires Listed()
      ensures n == null ==> forall m :: m in slots ==> m in list.nodes
      ensures n != null ==> n in slots && n !in list.nodes && n.val.slot < |slots| && slots[n.val.slot] == n
    {
      var i := 0;
      while i < |slots|
        invariant 0 <= i <= |slots|
        invariant forall j :: 0 <= j < i ==> slots[j] in list.nodes
      {
        if slots[i].val.socket == 0 {
          return slots[i];
        }
        i := i + 1;
      }
      return null;
    }

    /** Take a free slot for a new group and put it on top of the list. */
    method Create(socket: nat, addr: uint32) returns (n: Node?<Group>)
      requires Listed() && socket != 0
      modifies list`head, list`nodes, slots`next, slots`val
      ensures Listed()
      ensures n == null <==> |old(list.nodes)| == |slots|
      ensures n == null ==> list.nodes == old(list.nodes) && Groups() == old(Groups())
      ensures n != null ==> n !in old(list.nodes) && n.val.slot < |slots| && slots[n.val.slot] == n
                            && list.nodes == [n] + old(list.nodes) && n.val == Group(socket, addr, n.val.slot)
                            && Groups() == [Group(socket, addr, n.val.slot)] + old(Groups())
                            && forall g :: g in old(Groups()) ==> g.slot != n.val.slot
    {
      n := FreeSlot();
      Full(n);
      if n == null { return; }
      SlotsDiffer(n);
      n.val := n.val.(socket := socket, addr := addr);
      list.Push(n);
    }

    /** `rlpm_new_rxgroup`: the group that is there already, or else a new one. */
    method New(socket: nat, addr: uint32) returns (n: Node?<Group>, ghost i: nat)
      requires Listed() && socket != 0
      modifies list`head, list`nodes, slots`next, slots`val
      ensures Listed() && old(FirstAt(socket, Grouped(addr), i))
      ensures i < |old(list.nodes)| ==>
              n == old(list.nodes)[i] && list.nodes == old(list.nodes) && Groups() == old(Groups())
      ensures i == |old(list.nodes)| ==> (n == null <==> i == |slots|)
      ensures n == null ==> list.nodes == old(list.nodes) && Groups() == old(Groups())
      ensures n != null && i == |old(list.nodes)| ==>
                && n !in old(list.nodes) && n.val.slot < |slots| && slots[n.val.slot] == n
                && list.nodes == [n] + old(list.nodes) && n.val == Group(socket, addr, n.val.slot)
                && Groups() == [n.val] + old(Groups())
                && forall g :: g in old(Groups()) ==> g.slot != n.val.slot
    {
      hide Listed, FirstAt;
      IsLinked();
      n, i := Find(socket, addr);
      InBounds(socket, Grouped(addr), i);
      if n != null { return; }
      n := Create(socket, addr);
    }

    lemma InBounds(socket: nat, addr: uint32, i: nat)
      requires FirstAt(socket, addr, i)
      ensures i <= |list.nodes|
    {
    }

    lemma OnlyFirst(socket: nat, addr: uint32)
      ensures forall i, j :: FirstAt(socket, addr, i) && FirstAt(socket, addr, j) ==> i == j
    {
    }

    lemma SlotsDiffer(n: Node<Group>)
      requires Listed() && n !in list.nodes && n.val.slot < |slots| && slots[n.val.slot] == n
      ensures forall g :: g in Groups() ==> g.slot != n.val.slot
    {
      forall i | 0 <= i < |list.nodes| ensures list.nodes[i].val.slot != n.val.slot {
        assert list.nodes[i] in slots;
      }
    }

    lemma Full(n: Node?<Group>)
      requires Listed()
      requires n == null ==> forall m :: m in slots ==> m in list.nodes
      requires n != null ==> n in slots && n !in list.nodes
      ensures n == null <==> |list.nodes| == |slots|
      ensures |list.nodes| <= |slots|
    {
      AllListed(list.nodes, slots);
      if n == null {
        AllListed(slots, list.nodes);
      } else {
        AllListed(list.nodes + [n], slots);
      }
    }

    lemma Room()
      requires Listed()
      ensures |list.nodes| <= |slots|
    {
      AllListed(list.nodes, slots);
    }

    /** `rlpm_free_rxgroup` */
    method Free(n: Node<Group>) returns (ghost i: nat)
      requires Listed() && n in list.nodes
      modifies list`head, list`nodes, list.nodes`next, n`val
      ensures Listed() && i < |old(list.nodes)| && old(list.nodes)[i] == n && list.nodes == Without(old(list.nodes), i)
      ensures Groups() == Without(old(Groups()), i)
    {
      hide Chain.Linked;
      var found, next;
      found, next, i := list.Remove(n);
      n.val := n.val.(socket := 0);
    }

    /** `rlpm_free_rxgroup` on a group at a known place. */
    method FreeAt(n: Node<Group>, ghost i: nat)
      requires Listed() && i < |list.nodes| && list.nodes[i] == n
      modifies list`head, list`nodes, slots`next, slots`val
      ensures Listed() && list.nodes == Without(old(list.nodes), i) && Groups() == Without(old(Groups()), i)
    {
      assert forall j :: 0 <= j < |list.nodes| ==> list.nodes[j] in slots;
      ghost var j := Free(n);
    }

    lemma IsLinked()
      requires Listed()
      ensures list.Linked()
    {
    }
  }

  // ----- Listeners -----

  class ListenerPool {
    const slots: seq<Node<Listener>>
    /** The listener lists, one for each group slot. */
    const members: seq<Chain<Listener>>

    constructor (slots: seq<Node<Listener>>, members: seq<Chain<Listener>>)
      requires Distinct(slots) && Distinct(members) && forall n :: n in slots ==> n.val.protocol == 0
      requires forall k :: 0 <= k < |members| ==> members[k].nodes == [] && members[k].Linked()
      ensures Listed() && this.slots == slots && this.members == members
    {
      this.slots, this.members := slots, members;
    }

    function List(k: nat): Chain<Listener>
      requires k < |members|
    {
      members[k]
    }

    ghost predicate InSlots(k: nat)
      requires k < |members|
      reads members[k]
    {
      forall j :: 0 <= j < |members[k].nodes| ==> members[k].nodes[j] in slots
    }

    ghost predicate OnList(k: nat)
      requires k < |members|
      reads members[k], members[k].nodes`next, members[k].nodes`val
    {
      && members[k].Linked()
      && (forall n :: n in members[k].nodes ==> n.val.group == k && n.val.protocol != 0)
    }

    /** A slot is in use exactly when it is on the list of the group it names. */
    ghost predicate Listed()
      reads members, slots`next, slots`val
    {
      && Distinct(slots) && Distinct(members)
      && (forall k :: 0 <= k < |members| ==> InSlots(k) && OnList(k))
      && (forall n :: n in slots && n.val.protocol != 0 ==> n.val.group < |members| && n in members[n.val.group].nodes)
    }

    ghost function Lists(): (r: seq<seq<Node<Listener>>>)
      reads members
      ensures |r| == |members|
    {
      seq(|members|, k requires 0 <= k < |members| reads members => members[k].nodes)
    }

    /** `__new_listener` */
    method FreeSlot() returns (n: Node?<Listener>)
      ensures n == null ==> forall m :: m in slots ==> m.val.protocol != 0
      ensures n != null ==> n in slots && n.val.protocol == 0
    {
      var i := 0;
      while i < |slots|
        invariant 0 <= i <= |slots|
        invariant forall j :: 0 <= j < i ==> slots[j].val.protocol != 0
      {
        if slots[i].val.protocol == 0 {
          return slots[i];
        }
        i := i + 1;
      }
      return null;
    }

    /** A new listener on top of the list of group slot `k`. */
    method New(k: nat, protocol: uint32, callback: nat, ref: nat) returns (n: Node?<Listener>)
      requires Listed() && k < |members| && protocol != 0
      modifies List(k)`head, List(k)`nodes, slots`next, slots`val
      ensures Listed()
      ensures n == null <==> forall m :: m in slots ==> old(m.val.protocol) != 0
      ensures n == null ==> Lists() == old(Lists())
      ensures n != null ==> n in slots && old(n.val.protocol) == 0 && n.val == Listener(protocol, callback, ref, k)
                            && Lists() == old(Lists())[k := [n] + old(Lists())[k]]
      ensures forall m :: m in slots && m != n ==> m.val == old(m.val)
    {
      hide Chain.Linked, Distinct;
      n := FreeSlot();
      if n == null { return; }
      ListReady(k);
      forall j | 0 <= j < |members| ensures n !in members[j].nodes {
        assert OnList(j);
      }
      n.val := Listener(protocol, callback, ref, k);
      members[k].Push(n);
      forall j | 0 <= j < |members| ensures InSlots(j) && OnList(j) {
        assert old(InSlots(j)) && old(OnList(j));
      }
    }

    ghost predicate Apart(k: nat, j: nat)
      requires k < |members| && j < |members|
      reads members[k], members[j]
    {
      forall x :: x in members[j].nodes ==> x !in members[k].nodes
    }

    /** What to know about a group's list to work on it. */
    lemma ListReady(k: nat)
      requires Listed() && k < |members|
      ensures members[k].Linked() && members[k] in members && Distinct(members[k].nodes)
      ensures forall x :: 0 <= x < |members[k].nodes| ==> members[k].nodes[x] in slots
      ensures forall j :: 0 <= j < |members| && j != k ==> members[j] != members[k] && Apart(k, j)
    {
      assert InSlots(k) && OnList(k);
      forall j | 0 <= j < |members| && j != k ensures Apart(k, j) {
        assert OnList(j);
      }
    }

    /** `rlpm_free_listener` */
    method Free(n: Node<Listener>) returns (ghost j: nat)
      requires Listed() && n in slots && n.val.protocol != 0
      modifies List(n.val.group)`head, List(n.val.group)`nodes, List(n.val.group).nodes`next, n`val
      ensures Listed()
      ensures var k := old(n.val.group);
              && j < |old(Lists())[k]| && old(Lists())[k][j] == n
              && Lists() == old(Lists())[k := Without(old(Lists())[k], j)]
      ensures n.val == old(n.val).(protocol := 0)
    {
      hide Chain.Linked, Distinct, Without;
      var k := n.val.group;
      ListReady(k);
      ghost var nodes := members[k].nodes;
      var found, next;
      found, next, j := members[k].Remove(n);
      WithoutMembers(nodes, j);
      n.val := n.val.(protocol := 0);
      forall i | 0 <= i < |members| ensures InSlots(i) && OnList(i) {
        assert old(InSlots(i)) && old(OnList(i));
        if i == k {
          forall x | 0 <= x < |members[k].nodes| ensures members[k].nodes[x] in slots {
            assert members[k].nodes[x] in members[k].nodes;
          }
        } else {
          assert old(Apart(k, i));
        }
      }
    }
  }
}
