/** Sending on a locally led channel: every reliable wrapper is stamped and its
    buffer saved, and ticks let saved buffers expire (acnsrc/sdt/sdt.c). */
module SdtSend {
  import opened Word
  import opened Chains
  import opened RlpMem
  import opened SdtSequence
  import opened SdtResend

  // ----- One leader's sending as a value -----

  datatype Sending = Sending(pos: Position, sent: bool, stored: seq<Resend>)

  datatype Event = Reliable(buf: TxBuf) | Unreliable | Tick

  /** The configuration: `SDT_MAX_RESENDS` and the two times in milliseconds. */
  datatype Config = Config(maxResends: nat, timeout: int, tick: int) {
    predicate Ok() {
      2 <= maxResends < TWO32 && 0 < timeout && 0 < tick
    }
  }

  function Step(c: Config, s: Sending, e: Event): Sending {
    match e
    case Reliable(buf) =>
      var pos := Stamp(Mod32, c.maxResends, s.pos, s.sent, true);
      Sending(pos, true, Saved(c.maxResends, s.stored, Wrap(pos.reliable), c.timeout, buf))
    case Unreliable =>
      s.(pos := Stamp(Mod32, c.maxResends, s.pos, s.sent, false))
    case Tick =>
      s.(stored := Ticked(s.stored, c.tick))
  }

  function Run(c: Config, s: Sending, es: seq<Event>): Sending {
    if es == [] then s else Step(c, Run(c, s, es[..|es| - 1]), es[|es| - 1])
  }

  /** A new channel; `sent` tells whether another channel sent reliably before. */
  function Start(sent: bool): Sending {
    Sending(Position(0, 0, 0), sent, [])
  }

  /** How many numbers the leader advertises as available. */
  function Window(s: Sending): nat {
    if s.sent then Wrap(s.pos.reliable - s.pos.oldest) + 1 else 0
  }

  /** What is stored is a run of consecutive numbers, newest first, ending at the
      last number sent and lying inside the advertised window. */
  ghost predicate Shape(c: Config, s: Sending) {
    && InRange(s.pos) && NewestFirst(s.stored, c.timeout)
    && |s.stored| <= Window(s) <= c.maxResends
    && (forall i :: 0 <= i < |s.stored| ==> s.stored[i].seqno == Wrap(s.pos.reliable - i))
  }

  lemma Ahead(r: uint32, o: uint32)
    ensures Wrap(r - o) < TWO32 - 1 ==> Wrap(Wrap(r + 1) - o) == Wrap(r - o) + 1
  {
    hide Wrap;
    WrapStep(r + 1, o);
    WrapStep(r - o, 1);
    WrapSmall(Wrap(r - o) + 1);
    assert r + 1 - o == r - o + 1;
  }

  lemma Behind(r: uint32, k: nat)
    requires k < TWO32
    ensures Wrap(r - Wrap(r - k)) == k
  {
    WrapMinus(r, r - k);
  }

  lemma WindowGrows(c: Config, s: Sending)
    requires c.Ok() && InRange(s.pos) && Window(s) <= c.maxResends
    ensures var pos := Stamp(Mod32, c.maxResends, s.pos, s.sent, true);
            && InRange(pos) && pos.reliable == Wrap(s.pos.reliable + 1)
            && Wrap(pos.reliable - pos.oldest) + 1 == if Window(s) < c.maxResends then Window(s) + 1 else c.maxResends
  {
    hide Wrap;
    var r, o := s.pos.reliable, s.pos.oldest;
    Ahead(r, o);
    Behind(Wrap(r + 1), c.maxResends - 1);
    assert Wrap(r + 1) - (c.maxResends - 1) == Wrap(r + 1) - c.maxResends + 1;
    WrapSmall(0);
  }

  lemma SaveKeepsNumbers(c: Config, es: seq<Resend>, reliable: uint32, buf: TxBuf)
    requires c.Ok() && |es| <= c.maxResends
    requires forall i :: 0 <= i < |es| ==> es[i].seqno == Wrap(reliable - i)
    ensures var es' := Saved(c.maxResends, es, Wrap(reliable + 1), c.timeout, buf);
            && |es'| == (if |es| < c.maxResends then |es| + 1 else |es|)
            && forall i :: 0 <= i < |es'| ==> es'[i].seqno == Wrap(Wrap(reliable + 1) - i)
  {
    var es' := Saved(c.maxResends, es, Wrap(reliable + 1), c.timeout, buf);
    forall i | 0 <= i < |es'| ensures es'[i].seqno == Wrap(Wrap(reliable + 1) - i) {
      WrapStep(reliable + 1, i);
      if i > 0 {
        assert es'[i] == es[i - 1];
      }
    }
  }

  lemma ReliableKeepsShape(c: Config, s: Sending, buf: TxBuf)
    requires c.Ok() && Shape(c, s)
    ensures Shape(c, Step(c, s, Reliable(buf)))
    ensures var pos := Stamp(Mod32, c.maxResends, s.pos, s.sent, true);
            && InRange(pos)
            && Step(c, s, Reliable(buf)) ==
              Sending(pos, true, Saved(c.maxResends, s.stored, pos.reliable, c.timeout, buf))
  {
    hide NewestFirst, Stamp, Saved, Wrap;
    WindowGrows(c, s);
    SavedKeepsOrder(c.maxResends, s.stored, Wrap(s.pos.reliable + 1), c.timeout, buf);
    SaveKeepsNumbers(c, s.stored, s.pos.reliable, buf);
    WrapSmall(Wrap(s.pos.reliable + 1));
  }

  lemma StepKeepsShape(c: Config, s: Sending, e: Event)
    requires c.Ok() && Shape(c, s)
    ensures Shape(c, Step(c, s, e))
  {
    match e
    case Reliable(buf) =>
      ReliableKeepsShape(c, s, buf);
    case Unreliable =>
    case Tick =>
      TickDropsSuffix(s.stored, c.tick, c.timeout);
      TickKeepsOrder(s.stored, c.tick, c.timeout);
  }

  /** The shape of the list in every run of one local channel. */
  lemma {:induction false} RunKeepsShape(c: Config, sent: bool, es: seq<Event>)
    requires c.Ok()
    ensures Shape(c, Run(c, Start(sent), es))
  {
    if es == [] {
    } else {
      RunKeepsShape(c, sent, es[..|es| - 1]);
      StepKeepsShape(c, Run(c, Start(sent), es[..|es| - 1]), es[|es| - 1]);
    }
  }

  /** Number `n` can be sent again exactly when it lies at most as far back as
      the list is long; with `Window` in place of the length, when it is advertised. */
  lemma StoredNumbers(c: Config, s: Sending, n: uint32)
    requires c.Ok() && Shape(c, s)
    ensures (exists i :: 0 <= i < |s.stored| && s.stored[i].seqno == n) <==> Wrap(s.pos.reliable - n) < |s.stored|
    ensures Wrap(s.pos.reliable - n) < |s.stored| ==> Wrap(s.pos.reliable - n) < Window(s)
  {
    var r: uint32 := s.pos.reliable;
    forall i | 0 <= i < |s.stored| && s.stored[i].seqno == n ensures Wrap(r - n) == i {
      Behind(r, i);
    }
    var k := Wrap(r - n);
    WrapMinus(r, r - n);
    WrapSmall(r);
    assert Wrap(r - k) == n;
    assert k < |s.stored| ==> s.stored[k].seqno == n;
  }

  function Reliables(es: seq<Event>): nat {
    if es == [] then 0 else Reliables(es[..|es| - 1]) + if es[|es| - 1].Reliable? then 1 else 0
  }

  function Ticks(es: seq<Event>): nat {
    if es == [] then 0 else Ticks(es[..|es| - 1]) + if es[|es| - 1].Tick? then 1 else 0
  }

  /** Entry `x`, with `r` newer wrappers and `t` ticks since it was saved, stands
      below the newer ones; it is gone exactly when these fill the store or its
      time has run out. */
  ghost predicate Kept(c: Config, stored: seq<Resend>, r: nat, t: nat, x: Resend) {
    if r < c.maxResends && t * c.tick < c.timeout
    then r < |stored| && stored[r] == x.(expires := c.timeout - t * c.tick, blanktime := stored[r].blanktime)
    else |stored| <= r
  }

  lemma KeptStep(c: Config, s: Sending, e: Event, r: nat, t: nat, x: Resend)
    requires c.Ok() && Shape(c, s) && Kept(c, s.stored, r, t, x)
    ensures Kept(c, Step(c, s, e).stored, r + if e.Reliable? then 1 else 0, t + if e.Tick? then 1 else 0, x)
  {
    match e
    case Reliable(_) =>
    case Unreliable =>
    case Tick =>
      assert (t + 1) * c.tick == t * c.tick + c.tick;
      TickDropsSuffix(s.stored, c.tick, c.timeout);
  }

  lemma JustStored(c: Config, s: Sending, buf: TxBuf)
    requires c.Ok() && Shape(c, s)
    ensures var r := Step(c, s, Reliable(buf));
            && r.stored != [] && r.stored[0].buf == buf && r.stored[0].seqno == r.pos.reliable
            && Shape(c, r) && Kept(c, r.stored, 0, 0, r.stored[0])
  {
    ReliableKeepsShape(c, s, buf);
  }

  lemma {:induction false} KeptRun(c: Config, s: Sending, x: Resend, es: seq<Event>)
    requires c.Ok() && Shape(c, s) && Kept(c, s.stored, 0, 0, x)
    ensures Shape(c, Run(c, s, es)) && Kept(c, Run(c, s, es).stored, Reliables(es), Ticks(es), x)
  {
    hide Shape, Kept, Step;
    if es == [] {
    } else {
      var init, e := es[..|es| - 1], es[|es| - 1];
      KeptRun(c, s, x, init);
      KeptStep(c, Run(c, s, init), e, Reliables(init), Ticks(init), x);
      StepKeepsShape(c, Run(c, s, init), e);
    }
  }

  /** Whether a saved wrapper is still stored is decided by what follows. */
  lemma StoredExactly(c: Config, sent: bool, before: seq<Event>, buf: TxBuf, after: seq<Event>)
    requires c.Ok()
    ensures var s := Step(c, Run(c, Start(sent), before), Reliable(buf));
            && s.stored != [] && s.stored[0].buf == buf && s.stored[0].seqno == s.pos.reliable
            && Kept(c, Run(c, s, after).stored, Reliables(after), Ticks(after), s.stored[0])
  {
    hide *;
    var s := Step(c, Run(c, Start(sent), before), Reliable(buf));
    RunKeepsShape(c, sent, before);
    JustStored(c, Run(c, Start(sent), before), buf);
    KeptRun(c, s, s.stored[0], after);
  }

  // ----- The code -----

  /** `Uses(es, b)` entries name buffer `b`. */
  function Uses(es: seq<Resend>, b: TxBuf): nat {
    if es == [] then 0 else Uses(es[..|es| - 1], b) + if es[|es| - 1].buf == b then 1 else 0
  }

  lemma {:induction false} UsesOnce(es: seq<Resend>, b: TxBuf)
    requires Distinct(Buffers(es))
    ensures Uses(es, b) == if b in Buffers(es) then 1 else 0
  {
    if es == [] {
    } else {
      var init := es[..|es| - 1];
      assert Buffers(init) == Buffers(es)[..|es| - 1];
      assert Buffers(es) == Buffers(init) + [es[|es| - 1].buf];
      assert forall i :: 0 <= i < |init| ==> Buffers(es)[i] != Buffers(es)[|es| - 1];
      UsesOnce(init, b);
    }
  }

  /** A local component's channel with the stores behind it. */
  class Sender {
    const store: ResendStore
    const channel: Channel
    const formatter: Formatter

    constructor (store: ResendStore, formatter: Formatter)
      requires store.Valid() && store.list.Entries() == []
      requires Config(formatter.maxResends, store.list.timeout, store.tick).Ok()
      requires |store.list.slots| == formatter.maxResends
      ensures this.store == store && this.formatter == formatter && fresh(channel)
      ensures Valid() && Now() == Start(formatter.sentReliable)
    {
      this.store, this.formatter := store, formatter;
      channel := new Channel();
    }

    function Settings(): Config
    {
      Config(formatter.maxResends, store.list.timeout, store.tick)
    }

    ghost function Now(): Sending
      reads channel, formatter, store.list.resends, store.list.resends.nodes
    {
      Sending(channel.At(), formatter.sentReliable, store.list.Entries())
    }

    ghost predicate Valid()
      reads channel, formatter
      reads store.list.resends, store.list.resends.nodes, store.list.slots`val
      reads store.txPool, store.txPool.bufs`usage, store.txPool.bufs`netbuf
    {
      && store.Valid() && Settings().Ok() && |store.list.slots| == formatter.maxResends
      && Shape(Settings(), Now())
    }

    /** Between calls the buffers are counted exactly. */
    lemma BuffersCounted(b: TxBuf)
      requires Valid() && b in store.txPool.bufs
      ensures b.usage == Uses(store.list.Entries(), b)
      ensures |store.list.Entries()| <= formatter.maxResends
    {
      UsesOnce(store.list.Entries(), b);
    }

    /** Send one reliable wrapper: get a buffer, stamp, save, transmit, release. */
    method SendReliable(owner: seq<uint8>, netOk: bool) returns (ok: bool, w: Wrapper, ghost buf: TxBuf?)
      requires Valid()
      modifies channel, formatter
      modifies store.list.resends`head, store.list.resends`nodes, store.list.resends.nodes`next
      modifies store.list.slots`next, store.list.slots`val, store.txPool, store.txPool.bufs
      ensures Valid() && ok == (buf != null)
      ensures ok ==>
              && buf in store.txPool.bufs && Now() == Step(Settings(), old(Now()), Reliable(buf))
              && w == Header(true, channel.At())
              && buf.usage == 1 && buf.owner == owner && buf.datasize == 1472 == buf.mem.Length && fresh(buf.mem)
      ensures !ok ==> Now() == old(Now())
      ensures formatter.maxResends < |store.txPool.bufs| && Distinct(store.txPool.bufs) ==> ok == netOk
    {
      hide ResendStore.Counted, TxPool.Valid, NewestFirst, ResendList.Listed, Distinct, Step, Stamp, Shape;
      w := Header(true, channel.At());
      var tx := store.Acquire(owner, netOk);
      ok, buf := tx != null, tx;
      if tx == null { return; }
      ReliableKeepsShape(Settings(), Now(), tx);
      w := formatter.FormatWrapper(channel, true);
      store.Keep(tx, channel.reliableSeq);
    }

    /** Send one unreliable wrapper; nothing is saved. */
    method SendUnreliable(owner: seq<uint8>, netOk: bool) returns (ok: bool, w: Wrapper)
      requires Valid()
      modifies channel, formatter, store.txPool, store.txPool.bufs
      ensures Valid()
      ensures ok ==> Now() == Step(Settings(), old(Now()), Unreliable) && w == Header(false, channel.At())
      ensures !ok ==> Now() == old(Now())
      ensures formatter.maxResends < |store.txPool.bufs| && Distinct(store.txPool.bufs) ==> ok == netOk
    {
      hide ResendStore.Counted, TxPool.Valid, NewestFirst, ResendList.Listed, Distinct;
      StepKeepsShape(Settings(), Now(), Unreliable);
      w := Header(false, channel.At());
      var tx := store.Acquire(owner, netOk);
      ok := tx != null;
      if tx == null { return; }
      w := formatter.FormatWrapper(channel, false);
      store.GiveBack(tx);
    }

    method Tick()
      requires Valid()
      modifies store.list.resends`head, store.list.resends`nodes, store.list.slots`next, store.list.slots`val
      modifies store.txPool`freed, store.txPool.bufs`usage, store.txPool.bufs`owner
      modifies store.txPool.bufs`datasize, store.txPool.bufs`netbuf
      ensures Valid() && Now() == Step(Settings(), old(Now()), Event.Tick)
    {
      hide ResendStore.Counted, TxPool.Valid, NewestFirst, ResendList.Listed, Distinct;
      StepKeepsShape(Settings(), Now(), Event.Tick);
      store.Tick();
    }
  }
}
