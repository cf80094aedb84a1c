/** The store of sent reliable wrappers: resend slots from a static pool, kept
    on a list newest first, each holding a reference to its transmit buffer
    (acnsrc/sdt/sdt.c, acnsrc/sdt/sdtmem.c). */
module SdtResend {
  import opened Word
  import opened Chains
  import opened RlpMem
  import opened Wrappers

  /** `sdt_resend_t` without its link; a slot without buffer is free. */
  datatype Resend = Resend(seqno: uint32, expires: int, blanktime: int, buf: TxBuf?)

  const FREE := Resend(0, 0, 0, null)

  const DEFAULT_MTU: nat := 1472

  // ----- The list as a value -----

  /** The list after a wrapper was saved: its entry on top of the others, and a
      full store without its oldest entry, whose slot, with its stale blanking
      flag, is used again. */
  function Saved(slots: nat, es: seq<Resend>, seqno: uint32, timeout: int, buf: TxBuf?): seq<Resend> {
    if |es| == slots > 0
    then [Resend(seqno, timeout, es[slots - 1].blanktime, buf)] + es[..slots - 1]
    else [Resend(seqno, timeout, 0, buf)] + es
  }

  function Aged(e: Resend, tick: int): Resend {
    e.(expires := e.expires - tick, blanktime := 0)
  }

  /** What a tick does to one entry. */
  function Fate(tick: int): Resend -> Option<Resend> {
    (e: Resend) => if e.expires > tick then Some(Aged(e, tick)) else None
  }

  /** One tick: every entry ages, and those that run out are dropped. */
  function Ticked(es: seq<Resend>, tick: int): seq<Resend> {
    Visited(Fate(tick), es)
  }

  predicate NewestFirst(es: seq<Resend>, timeout: int) {
    && (forall i :: 0 <= i < |es| ==> 0 < es[i].expires <= timeout)
    && (forall i, j :: 0 <= i < j < |es| ==> es[i].expires >= es[j].expires)
  }

  lemma SavedKeepsOrder(slots: nat, es: seq<Resend>, seqno: uint32, timeout: int, buf: TxBuf?)
    requires NewestFirst(es, timeout) && timeout > 0
    ensures NewestFirst(Saved(slots, es, seqno, timeout, buf), timeout)
  {
  }

  /** `k` entries survive a tick: those with more than a tick to live. */
  ghost predicate Survive(es: seq<Resend>, tick: int, k: int) {
    && 0 <= k <= |es| && |Ticked(es, tick)| == k
    && (forall i :: 0 <= i < k ==> es[i].expires > tick)
    && (forall i :: 0 <= i < k ==>
          Ticked(es, tick)[i] == Resend(es[i].seqno, es[i].expires - tick, 0, es[i].buf))
    && (forall i :: k <= i < |es| ==> es[i].expires <= tick)
  }

  lemma SurviveMore(init: seq<Resend>, e: Resend, tick: int, es: seq<Resend>)
    requires es == init + [e] && Survive(init, tick, |Ticked(init, tick)|)
    requires e.expires > tick ==> |Ticked(init, tick)| == |init|
    ensures Survive(es, tick, |Ticked(es, tick)|)
  {
    assert es[..|es| - 1] == init;
  }

  /** Because expiry times never rise along the list, a tick drops a suffix. */
  lemma {:induction false} TickDropsSuffix(es: seq<Resend>, tick: int, timeout: int)
    requires NewestFirst(es, timeout)
    ensures Survive(es, tick, |Ticked(es, tick)|)
  {
    if es == [] {
    } else {
      var init, e := es[..|es| - 1], es[|es| - 1];
      TickDropsSuffix(init, tick, timeout);
      if |Ticked(init, tick)| < |init| {
        assert init[|init| - 1].expires >= e.expires;
      }
      SurviveMore(init, e, tick, es);
    }
  }

  lemma TickKeepsOrder(es: seq<Resend>, tick: int, timeout: int)
    requires NewestFirst(es, timeout) && tick > 0
    ensures NewestFirst(Ticked(es, tick), timeout)
  {
    TickDropsSuffix(es, tick, timeout);
  }

  function Buffers(es: seq<Resend>): (bs: seq<TxBuf?>)
    ensures |bs| == |es|
  {
    seq(|es|, i requires 0 <= i < |es| => es[i].buf)
  }

  /** The list with a new entry on top of the first `k` old ones. */
  lemma SavedForm(slots: nat, es: seq<Resend>, k: nat, e: Resend, buf: TxBuf)
    requires |es| <= slots && k == (if 0 < |es| == slots then |es| - 1 else |es|)
    requires e.blanktime == (if k < |es| then es[k].blanktime else 0) && e.buf == buf
    ensures [e] + es[..k] == Saved(slots, es, e.seqno, e.expires, buf)
    ensures Buffers([e] + es[..k]) == [buf] + Buffers(es)[..k]
  {
    assert es[..|es|] == es;
  }

  // ----- The list -----

  lemma LastOff<A>(s: seq<A>)
    requires s != []
    ensures Without(s, |s| - 1) == s[..|s| - 1]
  {
  }

  lemma AgedForm(es: seq<Resend>, i: nat, tick: int)
    requires i < |es|
    ensures Buffers(es[i := Aged(es[i], tick)]) == Buffers(es)
    ensures Without(es[i := Aged(es[i], tick)], i) == Without(es, i)
    ensures Buffers(Without(es, i)) == Without(Buffers(es), i)
  {
  }

  /** The resend slots and the list of those in use. */
  class ResendList {
    const slots: seq<Node<Resend>>
    const resends: Chain<Resend>
    const timeout: int

    constructor (slots: seq<Node<Resend>>, timeout: int)
      requires slots != [] && Distinct(slots) && forall n :: n in slots ==> n.val == FREE
      ensures Listed() && resends.nodes == [] && this.slots == slots && this.timeout == timeout
    {
      this.slots, this.timeout := slots, timeout;
      resends := new Chain();
    }

    /** A slot is in use exactly when it is on the list. */
    ghost predicate Listed()
      reads resends, resends.nodes`next, slots`val
    {
      && resends.Linked() && Distinct(slots) && slots != []
      && (forall n :: n in resends.nodes ==> n in slots)
      && (forall n :: n in slots ==> (n.val.buf != null <==> n in resends.nodes))
    }

    /** Listed, except that slot `n`, which is off the list, may look in use. */
    ghost predicate ListedBut(n: Node<Resend>)
      reads resends, resends.nodes`next, slots`val
    {
      && resends.Linked() && Distinct(slots) && n in slots && n !in resends.nodes
      && (forall m :: m in resends.nodes ==> m in slots)
      && (forall m :: m in slots && m != n ==> (m.val.buf != null <==> m in resends.nodes))
    }

    ghost function Entries(): seq<Resend>
      reads resends, resends.nodes
    {
      Values(resends.nodes)
    }

    /** The first slot without a buffer. */
    method FreeSlot() returns (n: Node?<Resend>)
      ensures n == null ==> forall m :: m in slots ==> m.val.buf != null
      ensures n != null ==> n in slots && n.val.buf == null
    {
      var i := 0;
      while i < |slots|
        invariant 0 <= i <= |slots|
        invariant forall j :: 0 <= j < i ==> slots[j].val.buf != null
      {
        if slots[i].val.buf == null {
          return slots[i];
        }
        i := i + 1;
      }
      return null;
    }

    /** The last node of the list and the one before it. */
    method FindTail() returns (last: Node?<Resend>, tail: Node<Resend>)
      requires resends.Linked() && resends.nodes != []
      ensures var m := |resends.nodes| - 1;
              tail == resends.nodes[m] && last == if m == 0 then null else resends.nodes[m - 1]
    {
      last := null;
      tail := resends.head;
      ghost var i := 0;
      while tail.next != null
        invariant 0 <= i < |resends.nodes| && tail == resends.nodes[i]
        invariant last == if i == 0 then null else resends.nodes[i - 1]
        decreases |resends.nodes| - i
      {
        last := tail;
        tail := tail.next;
        i := i + 1;
      }
    }

    /** As many entries as slots exactly when no slot is free. */
    lemma FullOrFree(n: Node?<Resend>)
      requires Listed()
      requires n == null ==> forall m :: m in slots ==> m.val.buf != null
      requires n != null ==> n in slots && n.val.buf == null
      ensures |resends.nodes| <= |slots| && (n == null <==> |resends.nodes| == |slots|)
    {
      AllListed(resends.nodes, slots);
      if n == null {
        AllListed(slots, resends.nodes);
      } else {
        AllListed(resends.nodes + [n], slots);
      }
    }

    /** A slot for a new entry: a free one, cleared, or else the tail, cut off the
        list unless it is the only node, which the code leaves where it is. */
    method TakeSlot(ghost nodes: seq<Node<Resend>>) returns (n: Node<Resend>, evicted: TxBuf?, detached: bool)
      requires Listed() && nodes == resends.nodes
      modifies resends`head, resends`nodes, resends.nodes`next, slots`val
      ensures |nodes| <= |slots| && n in slots
      ensures |nodes| < |slots| ==> evicted == null && detached && n.val == FREE && resends.nodes == nodes
      ensures |nodes| == |slots| ==>
              n == nodes[|nodes| - 1] && n.val == old(n.val).(expires := 0) && evicted == n.val.buf
      ensures |nodes| == |slots| ==> detached == (|nodes| > 1)
      ensures |nodes| == |slots| && detached ==> resends.nodes == nodes[..|nodes| - 1]
      ensures detached ==> ListedBut(n)
      ensures !detached ==> n == resends.head
      ensures forall m :: m in nodes && m != n ==> m.val == old(m.val)
    {
      var slot := FreeSlot();
      FullOrFree(slot);
      if slot != null {
        slot.val := FREE;
        return slot, null, true;
      }
      var last;
      last, n := FindTail();
      assert n in nodes;
      n.val := n.val.(expires := 0);
      evicted, detached := n.val.buf, last != null;
      if last != null {
        var _ := resends.Unlink(last, n, |nodes| - 1);
        LastOff(nodes);
      }
    }

    /** Run down one entry's timer and clear its flag. */
    method AgeNode(n: Node<Resend>, ghost i: nat, tick: int)
      requires Listed() && i < |resends.nodes| && resends.nodes[i] == n
      modifies n`val
      ensures Listed() && n.val == Aged(old(n.val), tick) && Entries() == old(Entries())[i := n.val]
    {
      n.val := n.val.(blanktime := 0);
      n.val := n.val.(expires := n.val.expires - tick);
    }

    /** Take an entry off the list and free its slot. */
    method DropNode(last: Node?<Resend>, n: Node<Resend>, ghost i: nat) returns (next: Node?<Resend>)
      requires Listed() && i < |resends.nodes| && resends.nodes[i] == n
      requires last == if i == 0 then null else resends.nodes[i - 1]
      modifies resends`head, resends`nodes, resends.nodes`next, n`val
      ensures Listed() && resends.nodes == Without(old(resends.nodes), i)
      ensures next == At(resends.nodes, i) && Entries() == Without(old(Entries()), i)
    {
      ghost var nodes := resends.nodes;
      WithoutMembers(nodes, i);
      ValuesWithout(nodes, i);
      next := resends.Unlink(last, n, i);
      n.val := n.val.(buf := null);
    }

    /** The traversal of the list is about to visit the entry at position `i`. */
    ghost predicate AtEntry(last: Node?<Resend>, n: Node?<Resend>, i: nat)
      reads resends
    {
      && i <= |resends.nodes| && n == At(resends.nodes, i)
      && last == if i == 0 then null else resends.nodes[i - 1]
    }

    /** Age the entry at position `i` and drop it if it runs out; the buffer it
        then gives up is returned. */
    method Visit(last: Node?<Resend>, n: Node<Resend>, ghost i: nat, tick: int)
      returns (last': Node?<Resend>, next: Node?<Resend>, ghost j: nat, dropped: TxBuf?)
      requires Listed() && AtEntry(last, n, i)
      modifies resends`head, resends`nodes, resends.nodes`next, n`val
      ensures Listed() && AtEntry(last', next, j)
      ensures i < |old(Entries())| && Entries() == AfterVisit(Fate(tick), old(Entries()), i)
      ensures j == if old(n.val.expires) > tick then i + 1 else i
      ensures dropped == if old(n.val.expires) > tick then null else old(n.val.buf)
    {
      ghost var es := Entries();
      assert es[i] == n.val;
      AgedForm(es, i, tick);
      hide Listed, Without;
      AgeNode(n, i, tick);
      if n.val.expires > 0 {
        last', next, j, dropped := n, n.next, i + 1, null;
      } else {
        last', j, dropped := last, i, n.val.buf;
        next := DropNode(last, n, i);
      }
    }

    /** Fill a slot and put it on top of the list. */
    method PutTop(n: Node<Resend>, buf: TxBuf, seqno: uint32, ghost detached: bool)
      requires detached ==> ListedBut(n)
      modifies resends`head, resends`nodes, n`next, n`val
      ensures n.val == Resend(seqno, timeout, old(n.val.blanktime), buf)
      ensures detached ==>
              Listed() && resends.nodes == [n] + old(resends.nodes) && Entries() == [n.val] + old(Entries())
      ensures !detached ==> n.next == old(resends.head) && resends.head == n
    {
      n.val := n.val.(seqno := seqno, buf := buf, expires := timeout);
      n.next := resends.head;
      resends.head := n;
      if detached {
        resends.nodes := [n] + resends.nodes;
        assert Entries() == [n.val] + old(Entries());
      }
    }
  }

  // ----- The store -----

  class ResendStore {
    const txPool: TxPool
    const list: ResendList
    const tick: int

    constructor (txPool: TxPool, slots: seq<Node<Resend>>, timeout: int, tick: int)
      requires txPool.Valid() && slots != [] && Distinct(slots) && timeout > 0 && tick > 0
      requires (forall n :: n in slots ==> n.val == FREE) && (forall b :: b in txPool.bufs ==> b.usage == 0)
      ensures Valid() && list.Entries() == []
      ensures this.txPool == txPool && list.slots == slots && list.timeout == timeout && this.tick == tick
    {
      this.txPool, this.tick := txPool, tick;
      list := new ResendList(slots, timeout);
    }

    /** Each buffer in `held` is used once by the entry that names it, and every
        buffer is used by nobody else but the caller that holds `extra`. */
    ghost predicate Counted(held: seq<TxBuf?>, extra: TxBuf?)
      reads txPool, txPool.bufs`usage, txPool.bufs`netbuf
    {
      && txPool.Valid() && Distinct(held)
      && (forall b :: b in held ==> b != null && b in txPool.bufs)
      && (forall b :: b in txPool.bufs ==> b.usage == (if b in held then 1 else 0) + (if b == extra then 1 else 0))
    }

    ghost function Held(): seq<TxBuf?>
      reads list.resends, list.resends.nodes
    {
      Buffers(list.Entries())
    }

    ghost predicate Valid()
      reads list.resends, list.resends.nodes, list.slots`val, txPool, txPool.bufs`usage, txPool.bufs`netbuf
    {
      && list.Listed() && Counted(Held(), null)
      && NewestFirst(list.Entries(), list.timeout) && list.timeout > 0 && tick > 0
    }

    /** Drop the reference an entry holds. */
    method ReleaseHeld(ghost held: seq<TxBuf?>, ghost i: nat, buf: TxBuf, ghost extra: TxBuf?)
      requires Counted(held, extra) && i < |held| && held[i] == buf
      modifies txPool`freed, buf`usage, buf`owner, buf`datasize, buf`netbuf
      ensures Counted(Without(held, i), extra)
    {
      WithoutMembers(held, i);
      assert buf in held;
      hide TxPool.Valid, Distinct, Without;
      txPool.Release(buf);
    }

    /** Count a new entry's use of its buffer. */
    method Adopt(ghost held: seq<TxBuf?>, buf: TxBuf)
      requires Counted(held, buf) && buf in txPool.bufs && buf !in held
      modifies buf`usage
      ensures Counted([buf] + held, buf)
    {
      hide TxPool.Valid;
      txPool.IncUse(buf);
    }

    /** Take a slot and give up the buffer of the entry that had it. */
    method MakeRoom(ghost nodes: seq<Node<Resend>>, ghost held: seq<TxBuf?>, ghost extra: TxBuf?)
      returns (n: Node<Resend>, detached: bool)
      requires list.Listed() && nodes == list.resends.nodes && held == Held() && Counted(held, extra)
      modifies list.resends`head, list.resends`nodes, list.resends.nodes`next, list.slots`val
      modifies txPool`freed, txPool.bufs`usage, txPool.bufs`owner, txPool.bufs`datasize, txPool.bufs`netbuf
      ensures |nodes| <= |list.slots| && n in list.slots && (detached <==> |list.slots| > 1 || nodes == [])
      ensures detached ==> list.ListedBut(n) && list.resends.nodes == nodes[..Kept(nodes)]
      ensures !detached ==> n == list.resends.head
      ensures Counted(held[..Kept(nodes)], extra)
      ensures n.val.blanktime == if Kept(nodes) < |nodes| then old(nodes[|nodes| - 1].val.blanktime) else 0
      ensures detached ==> list.Entries() == old(list.Entries())[..Kept(nodes)]
      ensures extra != null && extra !in held ==>
                extra.owner == old(extra.owner) && extra.datasize == old(extra.datasize)
    {
      hide Counted, TxPool.Valid, Distinct, ResendList.Listed, ResendList.ListedBut;
      LastHeld(held, extra);
      ghost var es := list.Entries();
      var evicted;
      n, evicted, detached := list.TakeSlot(nodes);
      if evicted != null {
        ReleaseHeld(held, |held| - 1, evicted, extra);
        LastOff(held);
      }
      if detached {
        assert list.Entries() == es[..Kept(nodes)];
      }
    }

    lemma LastHeld(held: seq<TxBuf?>, extra: TxBuf?)
      requires Counted(held, extra)
      ensures held != [] ==> held[|held| - 1] != null && held[|held| - 1] in txPool.bufs
      ensures held[..|held|] == held
    {
      assert held != [] ==> held[|held| - 1] in held;
    }

    /** How many entries remain when a wrapper is saved. */
    function Kept<A>(nodes: seq<A>): (k: nat)
      ensures k <= |nodes|
    {
      if 0 < |nodes| == |list.slots| then |nodes| - 1 else |nodes|
    }

    /** Fill the slot and count its use of the buffer. */
    method Fill(n: Node<Resend>, buf: TxBuf, seqno: uint32, ghost held: seq<TxBuf?>, ghost detached: bool)
      requires Counted(held, buf) && buf in txPool.bufs && buf !in held
      requires detached ==> list.ListedBut(n)
      modifies list.resends`head, list.resends`nodes, n`next, n`val, buf`usage
      ensures Counted([buf] + held, buf)
      ensures n.val == Resend(seqno, list.timeout, old(n.val.blanktime), buf)
      ensures detached ==> list.Listed() && list.Entries() == [n.val] + old(list.Entries())
      ensures !detached ==> n.next == old(list.resends.head) && list.resends.head == n
    {
      hide Counted;
      Adopt(held, buf);
      list.PutTop(n, buf, seqno, detached);
    }

    /** `sdt_save_buffer`. A store of a single slot fails at the second wrapper:
        the slot it gives up is still on the list and gets linked to itself. */
    method SaveBuffer(buf: TxBuf, seqno: uint32)
      requires list.Listed() && Counted(Held(), buf) && buf in txPool.bufs && buf !in Held()
      modifies list.resends`head, list.resends`nodes, list.resends.nodes`next, list.slots`next, list.slots`val
      modifies txPool`freed, txPool.bufs`usage, txPool.bufs`owner, txPool.bufs`datasize, txPool.bufs`netbuf
      ensures |list.slots| > 1 || old(list.Entries()) == [] ==>
                && list.Listed() && Counted(Held(), buf)
                && list.Entries() == Saved(|list.slots|, old(list.Entries()), seqno, list.timeout, buf)
      ensures |list.slots| == 1 && old(list.Entries()) != [] ==>
                list.resends.head != null && list.resends.head.next == list.resends.head
      ensures buf.owner == old(buf.owner) && buf.datasize == old(buf.datasize)
    {
      hide Counted, TxPool.Valid, Distinct, ResendList.Listed, ResendList.ListedBut, Saved;
      ghost var held, nodes, es := Held(), list.resends.nodes, list.Entries();
      HeldInPool(held, buf);
      var n, detached := MakeRoom(nodes, held, buf);
      Fill(n, buf, seqno, held[..Kept(nodes)], detached);
      if detached {
        SavedForm(|list.slots|, es, Kept(nodes), n.val, buf);
      }
    }

    lemma HeldInPool(held: seq<TxBuf?>, extra: TxBuf?)
      requires Counted(held, extra)
      ensures forall b :: b in held ==> b in txPool.bufs
    {
    }

    lemma FewerEntries()
      requires list.Listed()
      ensures |list.resends.nodes| <= |list.slots|
    {
      AllListed(list.resends.nodes, list.slots);
    }

    /** `rlpm_new_txbuf`. With more buffers than resend slots the pool never runs
        dry, since only listed entries keep buffers. */
    method Acquire(owner: seq<uint8>, netOk: bool) returns (buf: TxBuf?)
      requires Valid()
      modifies txPool`bufnum, txPool`issued, txPool.bufs
      ensures list.Listed() && list.Entries() == old(list.Entries())
      ensures Counted(Held(), buf)
      ensures buf != null ==>
                && buf in txPool.bufs && buf !in Held() && old(buf.usage) == 0 && buf.usage == 1
                && buf.owner == owner && buf.datasize == 1472 == buf.mem.Length && fresh(buf.mem)
      ensures |list.slots| < |txPool.bufs| && Distinct(txPool.bufs) ==> (buf != null <==> netOk)
    {
      hide ResendList.Listed, NewestFirst, TxPool.Valid;
      ghost var held := Held();
      FewerEntries();
      buf := txPool.NewTxBuf(DEFAULT_MTU, owner, netOk);
      if buf == null && netOk && Distinct(txPool.bufs) {
        AllListed(txPool.bufs, held);
      }
    }

    /** Save a buffer and drop the sender's own use of it. */
    method Keep(buf: TxBuf, seqno: uint32)
      requires list.Listed() && Counted(Held(), buf) && buf in txPool.bufs && buf !in Held()
      requires NewestFirst(list.Entries(), list.timeout) && list.timeout > 0 && tick > 0 && |list.slots| > 1
      modifies list.resends`head, list.resends`nodes, list.resends.nodes`next, list.slots`next, list.slots`val
      modifies txPool`freed, txPool.bufs`usage, txPool.bufs`owner, txPool.bufs`datasize, txPool.bufs`netbuf
      ensures Valid()
      ensures list.Entries() == Saved(|list.slots|, old(list.Entries()), seqno, list.timeout, buf)
      ensures buf.usage == 1 && buf.owner == old(buf.owner) && buf.datasize == old(buf.datasize)
    {
      hide NewestFirst, TxPool.Valid, Distinct, Counted, ResendList.Listed;
      SavedKeepsOrder(|list.slots|, list.Entries(), seqno, list.timeout, buf);
      SaveBuffer(buf, seqno);
      assert Held()[0] == buf;
      DropOwn(Held(), buf);
    }

    /** Give up the caller's own use of a buffer that an entry holds too. */
    method DropOwn(ghost held: seq<TxBuf?>, buf: TxBuf)
      requires Counted(held, buf) && buf in held
      modifies txPool`freed, buf`usage, buf`owner, buf`datasize, buf`netbuf
      ensures Counted(held, null)
      ensures buf.usage == 1 && buf.owner == old(buf.owner) && buf.datasize == old(buf.datasize)
    {
      hide TxPool.Valid;
      txPool.Release(buf);
    }

    /** Release a buffer that was not saved. */
    method GiveBack(buf: TxBuf)
      requires list.Listed() && Counted(Held(), buf) && buf in txPool.bufs && buf !in Held()
      requires NewestFirst(list.Entries(), list.timeout) && list.timeout > 0 && tick > 0
      modifies txPool`freed, buf`usage, buf`owner, buf`datasize, buf`netbuf
      ensures Valid() && list.Entries() == old(list.Entries())
    {
      hide TxPool.Valid, NewestFirst;
      txPool.Release(buf);
    }

    /** The traversal has visited `d` of the entries `es` and is at position `k`. */
    ghost predicate Ticking(es: seq<Resend>, d: nat, last: Node?<Resend>, n: Node?<Resend>, k: nat)
      reads list.resends, list.resends.nodes, list.slots`val, txPool, txPool.bufs`usage, txPool.bufs`netbuf
    {
      && list.Listed() && Counted(Held(), null) && list.AtEntry(last, n, k)
      && d <= |es| && list.Entries() == Midway(Fate(tick), es, d) && k == Position(Fate(tick), es, d)
    }

    /** What a visit may rely on. */
    lemma BeforeVisit(es: seq<Resend>, d: nat, last: Node?<Resend>, n: Node<Resend>, k: nat)
      requires Ticking(es, d, last, n, k)
      ensures var now := list.Entries();
              && list.Listed() && Counted(Buffers(now), null) && list.AtEntry(last, n, k)
              && d < |es| && k < |now| && now[k] == n.val && Buffers(now)[k] == n.val.buf && n.val.buf != null
              && AfterVisit(Fate(tick), now, k) == Midway(Fate(tick), es, d + 1)
              && Position(Fate(tick), es, d + 1) == if n.val.expires > tick then k + 1 else k
      ensures n in list.slots && n.val.buf in txPool.bufs
      ensures forall x :: 0 <= x < |list.resends.nodes| ==> list.resends.nodes[x] in list.slots
    {
      MidwayStep(Fate(tick), es, d);
      assert list.Entries()[k] == n.val && Held()[k] in Held();
    }

    /** Which buffers the entries hold after a visit. */
    lemma AfterVisitHeld(now: seq<Resend>, k: nat)
      requires k < |now|
      ensures Buffers(AfterVisit(Fate(tick), now, k)) == if now[k].expires > tick then Buffers(now)
              else Without(Buffers(now), k)
    {
      hide Buffers, Without, Aged;
      AgedForm(now, k, tick);
    }

    lemma AfterVisitTicking(es: seq<Resend>, d: nat, last: Node?<Resend>, n: Node?<Resend>, k: nat)
      requires list.Listed() && Counted(Buffers(list.Entries()), null) && list.AtEntry(last, n, k)
      requires d <= |es| && list.Entries() == Midway(Fate(tick), es, d) && k == Position(Fate(tick), es, d)
      ensures Ticking(es, d, last, n, k)
    {
    }

    /** Visit one entry and release the buffer it gives up. */
    method TickStep(last: Node?<Resend>, n: Node<Resend>, ghost es: seq<Resend>, ghost d: nat, ghost k: nat)
      returns (last': Node?<Resend>, next: Node?<Resend>, ghost j: nat)
      requires Ticking(es, d, last, n, k)
      modifies list.resends`head, list.resends`nodes, list.slots`next, list.slots`val
      modifies txPool`freed, txPool.bufs`usage, txPool.bufs`owner, txPool.bufs`datasize, txPool.bufs`netbuf
      ensures d < |es| && Ticking(es, d + 1, last', next, j)
    {
      hide *;
      BeforeVisit(es, d, last, n, k);
      ghost var now := list.Entries();
      AfterVisitHeld(now, k);
      var dropped;
      last', next, j, dropped := list.Visit(last, n, k, tick);
      if dropped != null {
        ReleaseHeld(Buffers(now), k, dropped, null);
      }
      AfterVisitTicking(es, d + 1, last', next, j);
    }

    lemma StartTick()
      requires Valid()
      ensures Ticking(list.Entries(), 0, null, list.resends.head, 0)
      ensures NewestFirst(Ticked(list.Entries(), tick), list.timeout) && list.timeout > 0 && tick > 0
    {
      MidwayStart(Fate(tick), list.Entries());
      TickKeepsOrder(list.Entries(), tick, list.timeout);
    }

    lemma TickDone(es: seq<Resend>, d: nat, last: Node?<Resend>, k: nat)
      requires Ticking(es, d, last, null, k)
      requires NewestFirst(Ticked(es, tick), list.timeout) && list.timeout > 0 && tick > 0
      ensures Valid() && list.Entries() == Ticked(es, tick)
    {
      MidwayDone(Fate(tick), es, d);
    }

    /** `sdt_tick`, the part for resends. */
    method Tick()
      requires Valid()
      modifies list.resends`head, list.resends`nodes, list.slots`next, list.slots`val
      modifies txPool`freed, txPool.bufs`usage, txPool.bufs`owner, txPool.bufs`datasize, txPool.bufs`netbuf
      ensures Valid() && list.Entries() == Ticked(old(list.Entries()), tick)
    {
      hide *;
      ghost var es, d, k := list.Entries(), 0, 0;
      StartTick();
      var resend := list.resends.head;
      var last: Node?<Resend> := null;
      while resend != null
        invariant Ticking(es, d, last, resend, k)
        decreases |es| - d
      {
        last, resend, k := TickStep(last, resend, es, d, k);
        d := d + 1;
      }
      TickDone(es, d, last, k);
    }
  }
}
