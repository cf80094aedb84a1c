/** Outstanding SLP requests: message slots on a linked list, and the pass of the
    tick that sends them again and gives up in the end (acnsrc/slp/slp.c). */
module SlpRetry {
  import opened Word
  import opened Wrappers
  import opened Chains

  datatype Kind = Reg | Dereg | SrvRqst | AttrRqst | Unknown

  /** `SLPMsg` without its link; xid 0 marks a free slot. */
  datatype Msg = Msg(kind: Kind, xid: uint16, retries: int, counter: int)

  const SLP_RETRIES: nat := 2

  /** `CONFIG_RETRY`: two seconds of ten ticks. */
  const RETRY: nat := 20

  // ----- A pass as a function -----

  predicate Due(m: Msg) {
    m.xid != 0 && m.counter == 0
  }

  predicate Sends(m: Msg) {
    Due(m) && m.kind != Unknown && m.retries != 0
  }

  /** A message after a pass. One that was sent is looked at a second time, which
      takes the first tick off its new waiting time. */
  function PassOne(m: Msg): Option<Msg> {
    if Sends(m) then Some(m.(counter := RETRY - 1, retries := m.retries - 1))
    else if Due(m) then None
    else Some(m.(counter := m.counter - 1))
  }

  function Left(m: Msg): (r: seq<Msg>)
    ensures |r| <= 1
  {
    match PassOne(m) case None => [] case Some(x) => [x]
  }

  function Passed(ms: seq<Msg>): seq<Msg> {
    if ms == [] then []
    else Left(ms[0]) + Passed(ms[1..])
  }

  function SentIn(ms: seq<Msg>): seq<uint16> {
    if ms == [] then [] else (if Sends(ms[0]) then [ms[0].xid] else []) + SentIn(ms[1..])
  }

  lemma FirstPasses(m: Msg, ms: seq<Msg>)
    ensures Passed([m] + ms) == Left(m) + Passed(ms)
    ensures SentIn([m] + ms) == (if Sends(m) then [m.xid] else []) + SentIn(ms)
  {
    assert ([m] + ms)[1..] == ms;
  }

  lemma NothingLeft()
    ensures Passed([]) == [] && SentIn([]) == []
  {
  }

  // ----- The schedule of one request -----

  /** What is left of a message after `p` passes without an answer. */
  function After(m: Msg, p: nat): Option<Msg> {
    if p == 0 then Some(m)
    else match After(m, p - 1) case None => None case Some(x) => PassOne(x)
  }

  /** It is sent in pass `p`, counting from 1. */
  predicate SentAt(m: Msg, p: nat) {
    p > 0 && After(m, p - 1).Some? && Sends(After(m, p - 1).value)
  }

  /** Its state after `p` passes, if it is still there. */
  function Scheduled(m: Msg, p: nat): Msg
    requires m.counter >= 0
  {
    if p <= m.counter then m.(counter := m.counter - p)
    else
      var x := p - m.counter - 1;
      m.(retries := m.retries - (x / RETRY + 1), counter := RETRY - 1 - x % RETRY)
  }

  lemma {:induction false} FollowsSchedule(m: Msg, p: nat)
    requires m.xid != 0 && m.kind != Unknown && m.counter >= 0 && m.retries >= 0
    ensures After(m, p) == if p < m.counter + 1 + m.retries * RETRY then Some(Scheduled(m, p)) else None
  {
    if p == 0 {
    } else {
      FollowsSchedule(m, p - 1);
      if p - 1 > m.counter {
        NextMod(p - 2 - m.counter, RETRY);
      }
    }
  }

  lemma SentWhen(m: Msg, p: nat)
    requires m.xid != 0 && m.kind != Unknown && m.counter >= 0 && m.retries >= 0
    ensures var x := p - 1 - m.counter;
            SentAt(m, p) <==> x >= 0 && x % RETRY == 0 && x / RETRY < m.retries
  {
    if p > 0 {
      FollowsSchedule(m, p - 1);
      var x := p - 1 - m.counter;
      if x > 0 {
        NextMod(x - 1, RETRY);
      }
    }
  }

  lemma Multiples(x: int, r: int)
    ensures x >= 0 && x % RETRY == 0 && x / RETRY < r <==> exists j :: 0 <= j < r && x == j * RETRY
  {
    if x >= 0 && x % RETRY == 0 && x / RETRY < r {
      assert x == (x / RETRY) * RETRY;
    }
    forall j | 0 <= j < r && x == j * RETRY ensures x >= 0 && x % RETRY == 0 && x / RETRY < r {
      DivMod(x, RETRY, j, 0);
    }
  }

  /** An unanswered request with initial delay `m.counter` is sent in passes
      counter + 1, counter + 1 + RETRY and so on, once for each retry, and freed
      in the pass that would be next. */
  lemma RetrySchedule(m: Msg, p: nat)
    requires m.xid != 0 && m.kind != Unknown && m.counter >= 0 && m.retries >= 0
    ensures SentAt(m, p) <==> exists j :: 0 <= j < m.retries && p - 1 - m.counter == j * RETRY
    ensures After(m, p).None? <==> p >= m.counter + 1 + m.retries * RETRY
  {
    hide SentAt;
    SentWhen(m, p);
    Multiples(p - 1 - m.counter, m.retries);
    FollowsSchedule(m, p);
  }

  /** A message of no known kind is never sent and goes when its delay is over. */
  lemma {:induction false} UnknownIsDropped(m: Msg, p: nat)
    requires m.xid != 0 && m.kind == Unknown && m.counter >= 0
    ensures !SentAt(m, p + 1)
    ensures After(m, p) == if p <= m.counter then Some(m.(counter := m.counter - p)) else None
  {
    if p == 0 {
    } else {
      UnknownIsDropped(m, p - 1);
    }
  }

  /** With the code's constants: two sends, twenty passes apart. */
  lemma TwoSends(kind: Kind, xid: uint16, delay: nat, p: nat)
    requires xid != 0 && kind != Unknown
    ensures var m := Msg(kind, xid, SLP_RETRIES, delay);
            && (SentAt(m, p) <==> p == delay + 1 || p == delay + 21)
            && (After(m, p).None? <==> p >= delay + 41)
  {
    hide SentAt;
    SentWhen(Msg(kind, xid, SLP_RETRIES, delay), p);
    FollowsSchedule(Msg(kind, xid, SLP_RETRIES, delay), p);
  }

  // ----- Many requests at once -----

  function Passes(ms: seq<Msg>, p: nat): seq<Msg> {
    if p == 0 then ms else Passed(Passes(ms, p - 1))
  }

  /** Each request's own fate, in list order. */
  function EachAfter(ms: seq<Msg>, p: nat): seq<Msg> {
    if ms == [] then []
    else (match After(ms[0], p) case None => [] case Some(m) => [m]) + EachAfter(ms[1..], p)
  }

  lemma {:induction false} PassedJoins(a: seq<Msg>, b: seq<Msg>)
    ensures Passed(a + b) == Passed(a) + Passed(b)
  {
    hide Left, Passed;
    if a == [] {
      NothingLeft();
      assert a + b == b;
    } else {
      PassedJoins(a[1..], b);
      assert a == [a[0]] + a[1..] && a + b == [a[0]] + (a[1..] + b);
      FirstPasses(a[0], a[1..]);
      FirstPasses(a[0], a[1..] + b);
    }
  }

  lemma {:induction false} EachStep(ms: seq<Msg>, p: nat)
    requires p > 0
    ensures Passed(EachAfter(ms, p - 1)) == EachAfter(ms, p)
  {
    if ms == [] {
    } else {
      EachStep(ms[1..], p);
      var first := match After(ms[0], p - 1) case None => [] case Some(m) => [m];
      PassedJoins(first, EachAfter(ms[1..], p - 1));
      if first != [] {
        assert first[1..] == [];
      }
    }
  }

  lemma {:induction false} EachBegins(ms: seq<Msg>)
    ensures EachAfter(ms, 0) == ms
  {
    if ms == [] {
    } else {
      EachBegins(ms[1..]);
    }
  }

  /** Requests do not disturb each other's schedule. */
  lemma {:induction false} RequestsApart(ms: seq<Msg>, p: nat)
    ensures Passes(ms, p) == EachAfter(ms, p)
  {
    if p == 0 {
      EachBegins(ms);
    } else {
      RequestsApart(ms, p - 1);
      EachStep(ms, p);
    }
  }

  lemma {:induction false} SentJoins(a: seq<Msg>, b: seq<Msg>)
    ensures SentIn(a + b) == SentIn(a) + SentIn(b)
  {
    hide Sends, Passed, SentIn;
    if a == [] {
      NothingLeft();
      assert a + b == b;
    } else {
      SentJoins(a[1..], b);
      assert a == [a[0]] + a[1..] && a + b == [a[0]] + (a[1..] + b);
      FirstPasses(a[0], a[1..]);
      FirstPasses(a[0], a[1..] + b);
    }
  }

  /** The requests sent in pass `p` by their own schedules, in list order. */
  function SentInPass(ms: seq<Msg>, p: nat): seq<uint16> {
    if ms == [] then [] else (if SentAt(ms[0], p) then [ms[0].xid] else []) + SentInPass(ms[1..], p)
  }

  lemma {:induction false} AfterKeepsXid(m: Msg, p: nat)
    ensures After(m, p).Some? ==> After(m, p).value.xid == m.xid
  {
    if p == 0 {
    } else {
      AfterKeepsXid(m, p - 1);
    }
  }

  lemma {:induction false} EachSends(ms: seq<Msg>, p: nat)
    requires p > 0
    ensures SentIn(EachAfter(ms, p - 1)) == SentInPass(ms, p)
  {
    hide Sends;
    if ms == [] {
    } else {
      EachSends(ms[1..], p);
      var first := match After(ms[0], p - 1) case None => [] case Some(m) => [m];
      AfterKeepsXid(ms[0], p - 1);
      SentJoins(first, EachAfter(ms[1..], p - 1));
      if first != [] {
        assert first[1..] == [];
      }
    }
  }

  /** What a pass sends: each request whose turn it is by its own schedule, once and
      in list order. */
  lemma SendsExactly(ms: seq<Msg>, p: nat)
    requires p > 0
    ensures SentIn(Passes(ms, p - 1)) == SentInPass(ms, p)
  {
    RequestsApart(ms, p - 1);
    EachSends(ms, p);
  }

  // ----- One turn of the loop -----

  /** The list after one turn of the loop at position `i`. After a send the loop
      does not move on. */
  function Turned(ms: seq<Msg>, i: nat): seq<Msg>
    requires i < |ms|
  {
    if Sends(ms[i]) then ms[i := ms[i].(counter := RETRY, retries := ms[i].retries - 1)]
    else if Due(ms[i]) then Without(ms, i)
    else ms[i := ms[i].(counter := ms[i].counter - 1)]
  }

  function NextPlace(ms: seq<Msg>, i: nat): nat
    requires i < |ms|
  {
    if Due(ms[i]) then i else i + 1
  }

  /** A turn changes neither what the pass will have made of the list in the end
      nor what it will have sent. */
  lemma TurnKeepsResult(ms: seq<Msg>, i: nat)
    requires i < |ms|
    ensures var r, j := Turned(ms, i), NextPlace(ms, i);
            && j <= |r| && r[..j] + Passed(r[j..]) == ms[..i] + Passed(ms[i..])
            && (if Sends(ms[i]) then [ms[i].xid] else []) + SentIn(r[j..]) == SentIn(ms[i..])
            && (|r| - j < |ms| - i || (|r| - j == |ms| - i && Due(ms[i]) && !Due(r[j])))
  {
    hide Passed, SentIn;
    var m, r, j, rest := ms[i], Turned(ms, i), NextPlace(ms, i), ms[i + 1..];
    assert ms[i..] == [m] + rest;
    FirstPasses(m, rest);
    if Sends(m) {
      assert r[i..] == [r[i]] + rest && r[..i] == ms[..i];
      FirstPasses(r[i], rest);
    } else if Due(m) {
      assert r[i..] == rest && r[..i] == ms[..i];
    } else {
      assert r[j..] == rest && r[..j] == ms[..i] + [r[i]];
    }
  }

  // ----- The slots -----

  class MsgPool {
    const slots: seq<Node<Msg>>
    const list: Chain<Msg>

    constructor (slots: seq<Node<Msg>>)
      requires Distinct(slots) && forall n :: n in slots ==> n.val.xid == 0
      ensures Listed() && list.nodes == [] && this.slots == slots
    {
      this.slots := slots;
      list := new Chain();
    }

    /** A slot is in use exactly when it is on the list. */
    ghost predicate Listed()
      reads list, list.nodes`next, slots`val
    {
      && list.Linked() && Distinct(slots)
      && (forall n :: n in list.nodes ==> n in slots)
      && (forall n :: n in slots ==> (n.val.xid != 0 <==> n in list.nodes))
    }

    ghost function Msgs(): (ms: seq<Msg>)
      reads list, list.nodes
      ensures |ms| == |list.nodes|
    {
      Values(list.nodes)
    }

    /** `msg_new`; the other fields keep what the slot's last user left there. */
    method MsgNew(xid: uint16) returns (n: Node?<Msg>)
      requires Listed() && xid != 0
      modifies list`head, list`nodes, slots`next, slots`val
      ensures Listed()
      ensures n == null <==> forall m :: m in slots ==> old(m.val.xid) != 0
      ensures n == null ==> list.nodes == old(list.nodes) && Msgs() == old(Msgs())
      ensures n != null ==> n in slots && old(n.val.xid) == 0 && n.val == old(n.val).(xid := xid, counter := 0)
                            && list.nodes == [n] + old(list.nodes) && Msgs() == [n.val] + old(Msgs())
    {
      hide Chain.Linked;
      var i := 0;
      while i < |slots|
        invariant 0 <= i <= |slots| && Listed() && list.nodes == old(list.nodes) && Msgs() == old(Msgs())
        invariant forall j :: 0 <= j < i ==> slots[j].val.xid != 0
        invariant forall m :: m in slots ==> m.val == old(m.val)
      {
        if slots[i].val.xid == 0 {
          n := slots[i];
          n.val := n.val.(counter := 0, xid := xid);
          list.Push(n);
          return;
        }
        i := i + 1;
      }
      return null;
    }

    /** A new request (the part of `da_reg_prop` and its like that fills the slot). */
    method Request(kind: Kind, xid: uint16, delay: nat) returns (n: Node?<Msg>)
      requires Listed() && xid != 0
      modifies list`head, list`nodes, slots`next, slots`val
      ensures Listed()
      ensures n == null ==> Msgs() == old(Msgs())
      ensures n != null ==> Msgs() == [Msg(kind, xid, SLP_RETRIES, delay)] + old(Msgs())
    {
      n := MsgNew(xid);
      if n != null {
        Fill(n, Msg(kind, xid, SLP_RETRIES, delay), 0);
      }
    }

    method Fill(n: Node<Msg>, m: Msg, ghost i: nat)
      requires Listed() && i < |list.nodes| && list.nodes[i] == n && m.xid != 0
      modifies n`val
      ensures Listed() && n.val == m && Msgs() == old(Msgs())[i := m]
    {
      n.val := m;
    }

    /** `msg_free`. For a message that is not on the list nothing happens and NULL
        is returned. */
    method MsgFree(n: Node<Msg>) returns (next: Node?<Msg>, ghost i: nat)
      requires Listed()
      modifies list`head, list`nodes, list.nodes`next, n`val
      ensures Listed()
      ensures n in old(list.nodes) ==>
                && i < |old(list.nodes)| && old(list.nodes)[i] == n
                && list.nodes == Without(old(list.nodes), i) && next == At(list.nodes, i)
                && |list.nodes| == |old(list.nodes)| - 1 && Msgs() == Without(old(Msgs()), i)
      ensures n !in old(list.nodes) ==> list.nodes == old(list.nodes) && next == null && n.val == old(n.val)
    {
      hide Chain.Linked, Without, Distinct;
      ghost var nodes, ms := list.nodes, Msgs();
      IsLinked();
      var found;
      found, next, i := list.Remove(n);
      if found {
        WithoutMembers(nodes, i);
        ValuesWithout(nodes, i);
        WithoutLength(nodes, i);
        assert Values(nodes) == ms;
        n.val := n.val.(xid := 0);
      }
    }

    lemma IsLinked()
      requires Listed()
      ensures list.Linked() && Distinct(list.nodes)
    {
    }

    lemma OnlyAt(i: nat)
      requires Listed() && i < |list.nodes|
      ensures forall j :: 0 <= j < |list.nodes| && list.nodes[j] == list.nodes[i] ==> j == i
    {
    }

    /** `msg_find_by_xid` */
    method FindByXid(xid: uint16) returns (n: Node?<Msg>)
      requires list.Linked()
      ensures n != null ==> n in list.nodes && n.val.xid == xid
      ensures n == null ==> forall m :: m in list.nodes ==> m.val.xid != xid
    {
      n := list.head;
      ghost var i := 0;
      while n != null
        invariant i <= |list.nodes| && n == At(list.nodes, i)
        invariant forall j :: 0 <= j < i ==> list.nodes[j].val.xid != xid
        decreases |list.nodes| - i
      {
        if n.val.xid == xid { return; }
        n, i := n.next, i + 1;
      }
    }

    lemma EntryAt(i: nat)
      requires Listed() && i < |list.nodes|
      ensures Msgs()[i] == list.nodes[i].val && list.nodes[i] in slots && list.nodes[i].next == At(list.nodes, i + 1)
      ensures list.nodes[i].val.xid != 0
      ensures forall x :: 0 <= x < |list.nodes| ==> list.nodes[x] in slots
    {
      assert list.nodes[i] in list.nodes;
    }

    /** One turn of the loop. */
    method Turn(n: Node<Msg>, ghost i: nat) returns (next: Node?<Msg>, ghost j: nat, sent: seq<uint16>)
      requires Listed() && i < |list.nodes| && list.nodes[i] == n
      modifies list`head, list`nodes, list.nodes`next, n`val
      ensures Listed() && i < |old(Msgs())| && Msgs() == Turned(old(Msgs()), i)
      ensures j == NextPlace(old(Msgs()), i) && j <= |list.nodes| && next == At(list.nodes, j)
      ensures sent == if Sends(old(Msgs())[i]) then [old(n.val.xid)] else []
    {
      hide Listed, Chain.Linked;
      EntryAt(i);
      OnlyAt(i);
      sent, j := [], i;
      var m := n.val;
      if m.xid != 0 && m.counter == 0 {
        if m.kind != Unknown && m.retries != 0 {
          sent := [m.xid];
          Fill(n, m.(counter := RETRY, retries := m.retries - 1), i);
          next := n;
        } else {
          next, j := MsgFree(n);
        }
      } else {
        Fill(n, m.(counter := m.counter - 1), i);
        EntryAt(i);
        next, j := n.next, i + 1;
      }
    }

    /** `slp_tick`, the loop over the messages. It does not move on after a send,
        and yet ends. */
    method TickMessages() returns (sent: seq<uint16>)
      requires Listed()
      modifies list`head, list`nodes, slots`next, slots`val
      ensures Listed() && Msgs() == Passed(old(Msgs())) && sent == SentIn(old(Msgs()))
    {
      hide Listed, Chain.Linked, Turned, NextPlace, Passed, SentIn;
      ghost var ms, i := Msgs(), 0;
      Start();
      sent := [];
      var n := list.head;
      while n != null
        invariant Listed() && 0 <= i <= |list.nodes| && n == At(list.nodes, i)
        invariant Msgs()[..i] + Passed(Msgs()[i..]) == Passed(ms)
        invariant sent + SentIn(Msgs()[i..]) == SentIn(ms)
        decreases |list.nodes| - i, if i < |list.nodes| && Due(Msgs()[i]) then 1 else 0
      {
        EntryAt(i);
        TurnKeepsResult(Msgs(), i);
        var more;
        n, i, more := Turn(n, i);
        sent := sent + more;
      }
      NothingLeft();
      assert Msgs()[i..] == [] && Msgs()[..i] + [] == Msgs();
    }

    lemma Start()
      requires Listed()
      ensures list.head == At(list.nodes, 0) && Msgs()[0..] == Msgs()
    {
    }
  }
}
