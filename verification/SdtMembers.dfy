/** Member records: slots of one static pool on the lists of many channels, and
    the pass of the SDT tick over a channel's list (acnsrc/sdt/sdt.c,
    acnsrc/sdt/sdtmem.c). */
module SdtMembers {
  import opened Word
  import opened Wrappers
  import opened Chains
  import opened SdtTimers
  import opened SdtMid
  import opened SdtRoster

  class MemberPool {
    const slots: seq<Node<Record>>
    /** The member lists of the channels. */
    const lists: seq<Chain<Record>>
    /** `available_mid` of the channels. */
    const available: array<uint16>
    /** The channel each slot in use belongs to. */
    ghost var home: map<Node<Record>, nat>

    constructor (slots: seq<Node<Record>>, lists: seq<Chain<Record>>, available: array<uint16>)
      requires available.Length == |lists| && forall k :: 0 <= k < |lists| ==> available[k] == 1
      requires Distinct(slots) && Distinct(lists) && forall n :: n in slots ==> n.val == FREE
      requires forall k :: 0 <= k < |lists| ==> lists[k].nodes == [] && lists[k].Linked()
      ensures Listed() && this.slots == slots && this.lists == lists && this.available == available
      ensures forall k :: 0 <= k < |lists| ==> MidState(k) == NO_MEMBERS
    {
      this.slots, this.lists, this.available, home := slots, lists, available, map[];
    }

    ghost predicate InSlots(k: nat)
      requires k < |lists|
      reads lists[k]
    {
      forall j :: 0 <= j < |lists[k].nodes| ==> lists[k].nodes[j] in slots
    }

    ghost predicate OnList(k: nat)
      requires k < |lists|
      reads `home, lists[k], lists[k].nodes`next, lists[k].nodes`val
    {
      && lists[k].Linked()
      && (forall n :: n in lists[k].nodes ==> n in home && home[n] == k && n.val.component != 0)
    }

    /** A slot is in use exactly when it is on the list of one channel. */
    ghost predicate Listed()
      reads `home, lists, slots`next, slots`val
    {
      && Distinct(slots) && Distinct(lists) && available.Length == |lists|
      && (forall k :: 0 <= k < |lists| ==> InSlots(k) && OnList(k))
      && (forall n :: n in slots && n.val.component != 0 ==>
        n in home && home[n] < |lists| && n in lists[home[n]].nodes)
    }

    function List(k: nat): Chain<Record>
      requires k < |lists|
    {
      lists[k]
    }

    ghost function Members(k: nat): (ms: seq<Record>)
      requires k < |lists|
      reads lists[k], lists[k].nodes
      ensures |ms| == |lists[k].nodes|
    {
      Values(lists[k].nodes)
    }

    ghost function Held(k: nat): (held: seq<uint16>)
      requires k < |lists|
      reads lists[k], lists[k].nodes
      ensures |held| == |lists[k].nodes|
    {
      MidsOf(Members(k))
    }

    /** The identifiers of a channel's members and the one to try next. */
    ghost function MidState(k: nat): Mids
      requires k < |lists| && available.Length == |lists|
      reads lists[k], lists[k].nodes, available
    {
      Mids(Held(k), available[k])
    }

    /** The pool's invariant spelled out for one slot. */
    lemma InUseIsListed(n: Node<Record>)
      requires Listed() && n in slots
      ensures n.val.component != 0 <==> exists k :: 0 <= k < |lists| && n in lists[k].nodes
      ensures forall j, k :: 0 <= j < |lists| && 0 <= k < |lists| && n in lists[j].nodes && n in lists[k].nodes ==>
              j == k
    {
      forall k | 0 <= k < |lists| && n in lists[k].nodes ensures n in home && home[n] == k && n.val.component != 0 {
        assert OnList(k);
      }
    }

    /** `sdtm_new_member` */
    method FreeSlot() returns (n: Node?<Record>)
      ensures n == null ==> forall m :: m in slots ==> m.val.component != 0
      ensures n != null ==> n in slots && n.val.component == 0
    {
      var i := 0;
      while i < |slots|
        invariant 0 <= i <= |slots|
        invariant forall j :: 0 <= j < i ==> slots[j].val.component != 0
      {
        if slots[i].val.component == 0 {
          return slots[i];
        }
        i := i + 1;
      }
      return null;
    }

    /** `sdt_add_member`. The code looks for the component on the list, but adds it
        even if it is there. */
    method AddMember(k: nat, component: nat) returns (n: Node?<Record>)
      requires Listed() && k < |lists| && component != 0
      modifies `home, List(k)`head, List(k)`nodes, slots`next, slots`val
      ensures Listed()
      ensures n == null <==> forall m :: m in slots ==> old(m.val.component) != 0
      ensures n == null ==> lists[k].nodes == old(lists[k].nodes)
      ensures n != null ==>
              n in slots && old(n.val.component) == 0 && n.val == Record(component, 0, false, false, 5000, 0)
                            && lists[k].nodes == [n] + old(lists[k].nodes)
      ensures MidState(k) == SdtMid.Step(|slots|, old(MidState(k)), SdtMid.AddMember(n != null))
      ensures forall m :: m in slots && m != n ==> m.val == old(m.val)
    {
      hide Listed, Distinct, MidsOf, NextMid;
      n := FreeSlot();
      if n == null { return; }
      NewSlot(k, n);
      ghost var ms := Members(k);
      Place(k, n, FREE.(component := component, expires := 5000));
      MidsOfNew(n.val, ms);
    }

    /** Fill a free slot and put it on top of a channel's list. */
    method Place(k: nat, n: Node<Record>, m: Record)
      requires Listed() && k < |lists| && n in slots && m.component != 0
      requires forall j :: 0 <= j < |lists| ==> n !in lists[j].nodes
      modifies `home, List(k)`head, List(k)`nodes, n`next, n`val
      ensures Listed() && n.val == m
      ensures lists[k].nodes == [n] + old(lists[k].nodes) && Members(k) == [m] + old(Members(k))
    {
      hide Chain.Linked, Distinct;
      ListReady(k);
      ghost var ms := Members(k);
      n.val := m;
      home := home[n := k];
      assert Members(k) == ms;
      lists[k].Push(n);
      forall j | 0 <= j < |lists| ensures InSlots(j) && OnList(j) {
        assert old(InSlots(j)) && old(OnList(j));
      }
    }

    lemma MidsOfNew(m: Record, ms: seq<Record>)
      ensures MidsOf([m] + ms) == [m.mid] + MidsOf(ms)
    {
    }

    lemma NewSlot(k: nat, n: Node<Record>)
      requires Listed() && k < |lists| && n in slots && n.val.component == 0
      ensures available.Length == |lists|
      ensures forall j :: 0 <= j < |lists| ==> n !in lists[j].nodes
      ensures |lists[k].nodes| < |slots|
    {
      forall j | 0 <= j < |lists| ensures n !in lists[j].nodes {
        assert OnList(j);
      }
      assert InSlots(k) && OnList(k);
      AllListed([n] + lists[k].nodes, slots);
    }

    /** What to know about a channel's list to work on it. */
    lemma ListReady(k: nat)
      requires Listed() && k < |lists|
      ensures lists[k].Linked() && lists[k] in lists && Distinct(lists[k].nodes)
      ensures forall x :: 0 <= x < |lists[k].nodes| ==> lists[k].nodes[x] in slots
      ensures forall j :: 0 <= j < |lists| && j != k ==> lists[j] != lists[k] && Apart(k, j)
    {
      assert InSlots(k) && OnList(k);
      forall j | 0 <= j < |lists| && j != k ensures Apart(k, j) {
        assert OnList(j);
      }
    }

    ghost predicate Apart(k: nat, j: nat)
      requires k < |lists| && j < |lists|
      reads lists[k], lists[j]
    {
      forall x :: x in lists[j].nodes ==> x !in lists[k].nodes
    }

    /** Take a node off a channel's list, if it is there, and free its slot. */
    method TakeOff(k: nat, n: Node<Record>) returns (next: Node?<Record>, ghost i: nat)
      requires Listed() && k < |lists|
      modifies List(k)`head, List(k)`nodes, List(k).nodes`next, n`val
      ensures Listed()
      ensures n in old(lists[k].nodes) ==>
                && i < |old(lists[k].nodes)| && old(lists[k].nodes)[i] == n
                && lists[k].nodes == Without(old(lists[k].nodes), i) && next == At(lists[k].nodes, i)
                && n.val == old(n.val).(component := 0) && Members(k) == Without(old(Members(k)), i)
      ensures n !in old(lists[k].nodes) ==>
                lists[k].nodes == old(lists[k].nodes) && next == null && n.val == old(n.val)
    {
      hide Chain.Linked, Distinct, Without;
      ListReady(k);
      ghost var nodes, ms := lists[k].nodes, Members(k);
      var found;
      found, next, i := lists[k].Remove(n);
      if found {
        WithoutMembers(nodes, i);
        ValuesWithout(nodes, i);
        assert Values(nodes) == ms;
        n.val := n.val.(component := 0);
      }
      forall j | 0 <= j < |lists| ensures InSlots(j) && OnList(j) {
        assert old(InSlots(j)) && old(OnList(j));
        if j == k {
          forall x | 0 <= x < |lists[k].nodes| ensures lists[k].nodes[x] in slots {
            assert lists[k].nodes[x] in lists[k].nodes;
          }
        } else {
          assert old(Apart(k, j));
        }
      }
    }

    /** `sdt_del_member`. For a member that is not on the channel's list nothing
        happens and NULL is returned. */
    method DelMember(k: nat, n: Node<Record>) returns (next: Node?<Record>, ghost i: nat)
      requires Listed() && k < |lists|
      modifies List(k)`head, List(k)`nodes, List(k).nodes`next, n`val
      ensures Listed()
      ensures n in old(lists[k].nodes) ==>
                && i < |old(lists[k].nodes)| && old(lists[k].nodes)[i] == n
                && lists[k].nodes == Without(old(lists[k].nodes), i) && next == At(lists[k].nodes, i)
                && n.val == old(n.val).(component := 0) && Members(k) == Without(old(Members(k)), i)
                && |lists[k].nodes| == |old(lists[k].nodes)| - 1
                && MidState(k) == SdtMid.Step(|slots|, old(MidState(k)), DeleteMember(i))
      ensures n !in old(lists[k].nodes) ==>
                lists[k].nodes == old(lists[k].nodes) && next == null && n.val == old(n.val)
    {
      hide Listed, Without, MidsOf, NextMid;
      InRange(k);
      ghost var nodes, ms := lists[k].nodes, Members(k);
      next, i := TakeOff(k, n);
      if n in nodes {
        WithoutLength(nodes, i);
        MidsOfRest(ms, i);
      }
    }

    lemma VisitReady(k: nat, n: Node<Record>, i: nat)
      requires Listed() && k < |lists| && i < |lists[k].nodes| && lists[k].nodes[i] == n
      ensures Members(k)[i] == n.val && n in slots && n.next == At(lists[k].nodes, i + 1)
      ensures forall x :: 0 <= x < |lists[k].nodes| ==> lists[k].nodes[x] in slots
      ensures forall j :: 0 <= j < |lists| && j != k ==> n !in lists[j].nodes
      ensures lists[k] in lists && forall j :: 0 <= j < |lists| && j != k ==> lists[j] != lists[k]
      ensures forall x :: 0 <= x < |lists[k].nodes| && lists[k].nodes[x] == n ==> x == i
    {
      assert OnList(k);
      assert n in lists[k].nodes;
      forall j | 0 <= j < |lists| && j != k ensures n !in lists[j].nodes {
        assert OnList(j);
      }
    }

    /** Change a member's record, but not whose it is. */
    method SetVal(k: nat, n: Node<Record>, m: Record, ghost i: nat)
      requires Listed() && k < |lists| && i < |lists[k].nodes| && lists[k].nodes[i] == n
      requires m.component == n.val.component
      modifies n`val
      ensures Listed() && n.val == m && Members(k) == old(Members(k))[i := m]
    {
      hide Chain.Linked;
      VisitReady(k, n, i);
      assert OnList(k);
      n.val := m;
      forall j | 0 <= j < |lists| ensures OnList(j) {
        assert old(OnList(j));
        assert lists[j].Linked();
      }
    }

    /** The timer of one member. */
    method Age(k: nat, n: Node<Record>, local: bool, tick: int, ghost i: nat)
      requires Listed() && k < |lists| && i < |lists[k].nodes| && lists[k].nodes[i] == n
      modifies n`val
      ensures Listed() && n.val == Aged(local, tick, old(n.val)) && Members(k) == old(Members(k))[i := n.val]
    {
      hide Listed;
      var m := n.val;
      if m.expires > 0 {
        m := m.(expires := m.expires - tick);
        if m.expires < 0 {
          m := m.(expires := 0);
        }
      }
      if m.expires == 0 {
        if local {
          m := m.(retries := m.retries - 1);
          if m.retries == 0 {
            m := m.(doomed := true);
          }
          m := m.(expires := -1);
        } else {
          m := m.(doomed := true);
        }
      }
      SetVal(k, n, m, i);
    }

    /** One member's turn in the pass. */
    method Visit(k: nat, n: Node<Record>, local: bool, tick: int, ghost i: nat)
      returns (next: Node?<Record>, ghost j: nat, notices: seq<Notice>)
      requires Listed() && k < |lists| && i < |lists[k].nodes| && lists[k].nodes[i] == n
      modifies List(k)`head, List(k)`nodes, List(k).nodes`next, n`val
      ensures Listed() && j <= |lists[k].nodes| && next == At(lists[k].nodes, j)
      ensures i < |old(Members(k))| && old(Members(k))[i] == old(n.val)
      ensures Members(k) == AfterVisit(Fate(local, tick), old(Members(k)), i)
      ensures j == if Stays(local, tick, old(n.val)) then i + 1 else i
      ensures notices == NoticesOf(local, tick, old(n.val))
      ensures forall x :: 0 <= x < |lists| && x != k ==> Members(x) == old(Members(x))
    {
      hide Listed, Without, Aged, Chain.Linked;
      VisitReady(k, n, i);
      ghost var ms := Members(k);
      WithoutUpdate(ms, i, Aged(local, tick, n.val));
      notices := [];
      if n.val.doomed {
        next, j := DelMember(k, n);
        j := i;
        return;
      }
      var was := n.val;
      Age(k, n, local, tick, i);
      if n.val.doomed {
        if was.connected {
          notices := [Disconnected(was.component)];
        }
        notices := notices + [if local then Leave(was.component) else Leaving(was.component)];
        next, j := DelMember(k, n);
        j := i;
      } else {
        next, j := n.next, i + 1;
      }
    }

    lemma WithoutUpdate(ms: seq<Record>, i: nat, m: Record)
      requires i < |ms|
      ensures Without(ms[i := m], i) == Without(ms, i)
    {
    }

    /** The pass has visited `d` members and is at position `i`. */
    ghost predicate Passing(k: nat, local: bool, tick: int, ms: seq<Record>, d: nat, n: Node?<Record>, i: nat)
      requires k < |lists|
      reads `home, lists, lists[k].nodes, slots`next, slots`val
    {
      && Listed() && i <= |lists[k].nodes| && n == At(lists[k].nodes, i)
      && d <= |ms| && Members(k) == Midway(Fate(local, tick), ms, d) && i == Position(Fate(local, tick), ms, d)
    }

    lemma BeforeVisit(k: nat, local: bool, tick: int, ms: seq<Record>, d: nat, n: Node<Record>, i: nat)
      requires k < |lists| && Passing(k, local, tick, ms, d, n, i)
      ensures Listed() && i < |lists[k].nodes| && lists[k].nodes[i] == n && d < |ms|
      ensures forall x :: 0 <= x < |lists[k].nodes| ==> lists[k].nodes[x] in slots
      ensures n in slots
      ensures Midway(Fate(local, tick), ms, d + 1) == AfterVisit(Fate(local, tick), Members(k), i)
      ensures Position(Fate(local, tick), ms, d + 1) == if Stays(local, tick, n.val) then i + 1 else i
      ensures Notices(local, tick, ms[..d + 1]) == Notices(local, tick, ms[..d]) + NoticesOf(local, tick, n.val)
    {
      MidwayStep(Fate(local, tick), ms, d);
      NoticesStep(local, tick, ms, d);
      VisitReady(k, n, i);
    }

    lemma AfterVisitPassing(k: nat, local: bool, tick: int, ms: seq<Record>, d: nat, n: Node?<Record>, i: nat)
      requires k < |lists| && Listed() && i <= |lists[k].nodes| && n == At(lists[k].nodes, i)
      requires d <= |ms| && Members(k) == Midway(Fate(local, tick), ms, d) && i == Position(Fate(local, tick), ms, d)
      ensures Passing(k, local, tick, ms, d, n, i)
    {
    }

    lemma PassDone(k: nat, local: bool, tick: int, ms: seq<Record>, d: nat, i: nat)
      requires k < |lists| && Passing(k, local, tick, ms, d, null, i)
      ensures Listed() && Members(k) == Ticked(local, tick, ms)
      ensures Notices(local, tick, ms[..d]) == Notices(local, tick, ms)
    {
      MidwayDone(Fate(local, tick), ms, d);
    }

    /** `sdt_tick`, the pass over the members of one channel. */
    method TickPass(k: nat, local: bool, tick: int) returns (notices: seq<Notice>)
      requires Listed() && k < |lists|
      modifies List(k)`head, List(k)`nodes, slots`next, slots`val
      ensures Listed() && Members(k) == Ticked(local, tick, old(Members(k)))
      ensures notices == Notices(local, tick, old(Members(k)))
      ensures forall x :: 0 <= x < |lists| && x != k ==> Members(x) == old(Members(x))
    {
      hide Passing, Midway, Position, Ticked, Notices, AfterVisit, Chain.Linked, OnList;
      ghost var ms, d, i := Members(k), 0, 0;
      StartPass(k, local, tick);
      notices := [];
      var member := lists[k].head;
      while member != null
        invariant Passing(k, local, tick, ms, d, member, i) && d <= |ms|
        invariant notices == Notices(local, tick, ms[..d])
        invariant forall x :: 0 <= x < |lists| && x != k ==> Members(x) == old(Members(x))
        decreases |ms| - d
      {
        BeforeVisit(k, local, tick, ms, d, member, i);
        var more;
        member, i, more := Visit(k, member, local, tick, i);
        notices, d := notices + more, d + 1;
        AfterVisitPassing(k, local, tick, ms, d, member, i);
      }
      PassDone(k, local, tick, ms, d, i);
    }

    lemma StartPass(k: nat, local: bool, tick: int)
      requires Listed() && k < |lists|
      ensures Passing(k, local, tick, Members(k), 0, lists[k].head, 0) && Notices(local, tick, Members(k)[..0]) == []
    {
      assert OnList(k);
      MidwayStart(Fate(local, tick), Members(k));
    }

    /** The loop that starts every member's timeout with a MAK. */
    method Restart(k: nat, timeout: int)
      requires Listed() && k < |lists|
      modifies slots`val
      ensures Listed() && Members(k) == Restarted(old(Members(k)), timeout)
      ensures forall x :: 0 <= x < |lists| && x != k ==> Members(x) == old(Members(x))
    {
      hide Listed, OnList, Chain.Linked;
      ghost var ms, i := Members(k), 0;
      HeadReady(k);
      var member := lists[k].head;
      while member != null
        invariant Listed() && i <= |lists[k].nodes| == |ms| && member == At(lists[k].nodes, i)
        invariant Members(k) == Restarted(ms[..i], timeout) + ms[i..]
        invariant forall x :: 0 <= x < |lists| && x != k ==> Members(x) == old(Members(x))
        decreases |ms| - i
      {
        VisitReady(k, member, i);
        RestartStep(ms, i, timeout);
        SetVal(k, member, member.val.(expires := timeout), i);
        VisitReady(k, member, i);
        member, i := member.next, i + 1;
      }
      assert ms[..|ms|] == ms;
    }

    lemma RestartStep(ms: seq<Record>, i: nat, timeout: int)
      requires i < |ms|
      ensures var now := Restarted(ms[..i], timeout) + ms[i..];
              now[i] == ms[i] && now[i := now[i].(expires := timeout)] == Restarted(ms[..i + 1], timeout) + ms[i + 1..]
    {
    }

    lemma HeadReady(k: nat)
      requires Listed() && k < |lists|
      ensures lists[k].head == At(lists[k].nodes, 0) && Members(k)[0..] == Members(k)
    {
      assert OnList(k);
    }

    /** `sdt_tick`, all of it for one locally led channel. */
    method TickLeader(k: nat, t: Times, mak: int) returns (mak': int, sendMak: bool, gone: bool, notices: seq<Notice>)
      requires Listed() && k < |lists|
      modifies List(k)`head, List(k)`nodes, slots`next, slots`val
      ensures Listed() && (Members(k), mak', sendMak) == LeaderTick(t, old(Members(k)), mak)
      ensures sendMak == MakSent(t, old(Led(Members(k), mak)), TickAll)
      ensures gone <==> Members(k) == []
      ensures notices == Notices(true, t.tick, old(Members(k)))
      ensures forall x :: 0 <= x < |lists| && x != k ==> Members(x) == old(Members(x))
    {
      hide Listed, OnList, Chain.Linked, Ticked, Notices;
      notices := TickPass(k, true, t.tick);
      mak', sendMak, gone := mak, false, false;
      HeadReady(k);
      if lists[k].head == null {
        gone := true;
      } else {
        mak' := mak' - t.tick;
        if mak' < 0 { mak' := 0; }
        if mak' == 0 {
          sendMak, mak' := true, t.makTime;
          Restart(k, t.makTimeout);
        }
      }
    }

    // ----- Acknowledgements -----

    /** `sdt_find_member_by_component` */
    method FindByComponent(k: nat, component: nat) returns (n: Node?<Record>, ghost i: nat)
      requires Listed() && k < |lists|
      ensures i <= |lists[k].nodes| && n == At(lists[k].nodes, i)
      ensures FirstOf(Members(k), component, i)
    {
      hide Listed;
      HeadReady(k);
      n, i := lists[k].head, 0;
      while n != null
        invariant i <= |lists[k].nodes| && n == At(lists[k].nodes, i)
        invariant forall j :: 0 <= j < i ==> Members(k)[j].component != component
        decreases |lists[k].nodes| - i
      {
        VisitReady(k, n, i);
        if n.val.component == component { return; }
        n, i := n.next, i + 1;
      }
    }

    /** `sdt_rx_ack`, the part that turns off the timer: of the sender's record in
        the own channel `k`, if the own record is in the sender's channel `j`. */
    method Acknowledge(k: nat, sender: nat, j: nat, self: nat)
      requires Listed() && k < |lists| && j < |lists|
      modifies slots`val
      ensures Listed()
      ensures Members(k) == if OfComponent(old(Members(j)), self) == [] then old(Members(k))
              else Acked(old(Members(k)), sender)
      ensures forall x :: 0 <= x < |lists| && x != k ==> Members(x) == old(Members(x))
    {
      hide Listed, Acked, OfComponent;
      var n, i := FindByComponent(k, sender);
      FirstAcked(Members(k), sender, i);
      if n == null { return; }
      var own, x := FindByComponent(j, self);
      FirstAcked(Members(j), self, x);
      if own == null { return; }
      VisitReady(k, n, i);
      SetVal(k, n, n.val.(expires := -1), i);
    }

    // ----- Member identifiers -----

    /** `sdt_find_member_by_mid` */
    method FindByMid(k: nat, mid: uint16) returns (n: Node?<Record>)
      requires Listed() && k < |lists|
      ensures n != null ==> n in lists[k].nodes && n.val.mid == mid
      ensures n != null <==> mid in Held(k)
    {
      HeadReady(k);
      n := lists[k].head;
      ghost var i := 0;
      while n != null
        invariant i <= |lists[k].nodes| && n == At(lists[k].nodes, i)
        invariant mid !in Held(k)[..i]
        decreases |lists[k].nodes| - i
      {
        VisitReady(k, n, i);
        assert Held(k)[i] == n.val.mid;
        if n.val.mid == mid { return; }
        assert Held(k)[..i + 1] == Held(k)[..i] + [n.val.mid];
        n, i := n.next, i + 1;
      }
      assert Held(k)[..i] == Held(k);
    }

    /** `sdt_next_member`. With fewer than 2^16 members its loop ends. */
    method NextMember(k: nat) returns (mid: uint16)
      requires Listed() && k < |lists| && |lists[k].nodes| < TWO16
      modifies available
      ensures mid == NextMid(Held(k), old(available[k])) && mid !in Held(k)
      ensures available[..] == old(available[..])[k := Next16(mid)]
    {
      hide Listed, NextMid, Held, From, Nth, Next16;
      InRange(k);
      ghost var start := available[k];
      if available[k] == 0x7FFF {
        available[k] := 1;
      }
      ghost var held, n := Held(k), 0;
      ghost var d := NextIsFree(held, start);
      StartsAt(start);
      var holder := FindByMid(k, available[k]);
      while holder != null
        invariant n <= d && available[k] == Nth(From(start), n) && (holder != null <==> available[k] in held)
        invariant available[..] == old(available[..])[k := available[k]]
        decreases d - n
      {
        NotYet(held, start, d, n);
        available[k], n := Next16(available[k]), n + 1;
        holder := FindByMid(k, available[k]);
      }
      mid := available[k];
      available[k] := Next16(mid);
    }

    lemma InRange(k: nat)
      requires Listed() && k < |lists|
      ensures available.Length == |lists|
    {
    }

    /** `sdt_tx_join`, the part that gives the other side's member its identifier. */
    method GiveMid(k: nat, n: Node<Record>, timeout: int, retries: int, ghost i: nat)
      requires Listed() && k < |lists| && i < |lists[k].nodes| && lists[k].nodes[i] == n && |slots| < TWO16
      modifies available, n`val
      ensures Listed() && MidState(k) == SdtMid.Step(|slots|, old(MidState(k)), SendJoin(i))
      ensures Members(k) == old(Members(k))[i := n.val]
      ensures n.val == old(n.val).(mid := NextMid(old(Held(k)), old(available[k])), expires := timeout,
              retries := retries)
      ensures forall j :: 0 <= j < |lists| && j != k ==> MidState(j) == old(MidState(j))
    {
      hide Listed, NextMid, Next16;
      InRange(k);
      FewerMembers(k);
      VisitReady(k, n, i);
      ghost var ms := Members(k);
      var mid := NextMember(k);
      SetVal(k, n, n.val.(mid := mid, expires := timeout, retries := retries), i);
      MidsOfUpdated(ms, i, n.val);
      assert available[k] == available[..][k];
      forall j | 0 <= j < |lists| && j != k ensures MidState(j) == old(MidState(j)) {
        assert available[j] == available[..][j];
      }
    }

    lemma FewerMembers(k: nat)
      requires Listed() && k < |lists|
      ensures |lists[k].nodes| <= |slots|
    {
      assert InSlots(k) && OnList(k);
      AllListed(lists[k].nodes, slots);
    }

    lemma StartsAt(available: uint16)
      ensures Nth(From(available), 0) == if available == 0x7FFF then 1 else available
    {
    }

    lemma NotYet(held: seq<uint16>, available: uint16, d: nat, n: nat)
      requires NextMid(held, available) == Nth(From(available), d) && NextMid(held, available) !in held
      requires n <= d && Nth(From(available), n) in held
      ensures n < d && Next16(Nth(From(available), n)) == Nth(From(available), n + 1)
    {
    }
  }
}
