/** The two timers that decide whether a leader still counts on a member: one
    MAK timer for the channel and one expiry timer for the member
    (acnsrc/sdt/sdt.c). */
module SdtTimers {
  import opened Word

  /** FOREIGN_MEMBER_MAK_TIME_ms, MAK_TIMEOUT_ms and MS_PER_TICK. */
  datatype Times = Times(makTime: int, makTimeout: int, tick: int) {
    predicate Ok() {
      makTime > 0 && makTimeout > 0 && tick > 0
    }

    /** Ticks between two MAKs, and from a MAK to the expiry it starts. */
    function Period(): int
      requires Ok()
    {
      Ticks(makTime, tick)
    }

    function Patience(): int
      requires Ok()
    {
      Ticks(makTimeout, tick)
    }
  }

  /** Ticks until a timer set to `ms` has run down: ms / tick rounded up. */
  function Ticks(ms: int, tick: int): (n: int)
    requires tick > 0
  {
    (ms + tick - 1) / tick
  }

  lemma TicksMeaning(ms: int, tick: int, n: int)
    requires tick > 0
    ensures n * tick >= ms <==> n >= Ticks(ms, tick)
  {
    var q := Ticks(ms, tick);
    assert q * tick <= ms + tick - 1 < q * tick + tick;
    if n >= q {
      assert n * tick >= q * tick;
    } else {
      assert n * tick <= (q - 1) * tick == q * tick - tick;
    }
  }

  // ----- One tick -----

  /** A running timer counts down to zero; one that is negative is off. */
  function Countdown(expires: int, tick: int): int {
    if expires > 0 then (if expires - tick < 0 then 0 else expires - tick) else expires
  }

  /** The channel's MAK timer and the member's timer. */
  datatype Clock = Clock(mak: int, expires: int)

  function MakDown(t: Times, mak: int): int {
    if mak - t.tick < 0 then 0 else mak - t.tick
  }

  /** The member's timer runs out at this tick. */
  predicate Misses(t: Times, c: Clock) {
    Countdown(c.expires, t.tick) == 0
  }

  predicate Maks(t: Times, c: Clock) {
    MakDown(t, c.mak) == 0
  }

  function Tick(t: Times, c: Clock): Clock {
    if Maks(t, c) then Clock(t.makTime, t.makTimeout)
    else Clock(MakDown(t, c.mak), if Misses(t, c) then -1 else Countdown(c.expires, t.tick))
  }

  datatype Event = OneTick | Ack

  function Step(t: Times, c: Clock, e: Event): Clock {
    match e
    case OneTick => Tick(t, c)
    case Ack => c.(expires := -1)
  }

  function Run(t: Times, c: Clock, es: seq<Event>): Clock {
    if es == [] then c else Step(t, Run(t, c, es[..|es| - 1]), es[|es| - 1])
  }

  /** How often the timer has run out. */
  function Missed(t: Times, c: Clock, es: seq<Event>): nat {
    if es == [] then 0
    else
      Missed(t, c, es[..|es| - 1])
      + if es[|es| - 1].OneTick? && Misses(t, Run(t, c, es[..|es| - 1])) then 1 else 0
  }

  // ----- The member -----

  /** A foreign member in the leader's list. */
  datatype Member = Gone | Listed(retries: int)

  /** Each expiry costs a retry; the member goes when none is left. An ACK turns
      the timer off but does not give retries back. */
  function MemberStep(t: Times, c: Clock, m: Member, e: Event): Member {
    if m.Listed? && e.OneTick? && Misses(t, c) then
      if m.retries - 1 == 0 then Gone else Listed(m.retries - 1)
    else m
  }

  function MemberRun(t: Times, c: Clock, m: Member, es: seq<Event>): Member {
    if es == [] then m
    else MemberStep(t, Run(t, c, es[..|es| - 1]), MemberRun(t, c, m, es[..|es| - 1]), es[|es| - 1])
  }

  /** Misses add up over the whole membership, whatever is acknowledged between. */
  lemma {:induction false} MissesAddUp(t: Times, c: Clock, retries: int, es: seq<Event>)
    requires retries > 0
    ensures MemberRun(t, c, Listed(retries), es) ==
            if Missed(t, c, es) < retries then Listed(retries - Missed(t, c, es)) else Gone
  {
    if es == [] {
    } else {
      MissesAddUp(t, c, retries, es[..|es| - 1]);
    }
  }

  // ----- A silent member -----

  function Silence(n: nat): (es: seq<Event>)
    ensures |es| == n
  {
    seq(n, _ => OneTick)
  }

  lemma SilenceStep(t: Times, c: Clock, n: nat)
    requires n > 0
    ensures Run(t, c, Silence(n)) == Tick(t, Run(t, c, Silence(n - 1)))
    ensures Missed(t, c, Silence(n)) == Missed(t, c, Silence(n - 1)) + if Misses(t, Run(t, c, Silence(n - 1))) then 1
            else 0
  {
    assert Silence(n)[..n - 1] == Silence(n - 1);
  }

  /** The tick of the first MAK. */
  function FirstMak(t: Times, mak: int): int
    requires t.Ok()
  {
    if mak <= 0 then 1 else Ticks(mak, t.tick)
  }

  /** The timers `q` ticks after a MAK. */
  function After(t: Times, q: int): Clock
    requires t.Ok()
  {
    Clock(t.makTime - q * t.tick, if q < t.Patience() then t.makTimeout - q * t.tick else -1)
  }

  /** `q` of a period's ticks have passed. */
  lemma TickAfter(t: Times, q: int)
    requires t.Ok() && 0 <= q < t.Period()
    ensures Tick(t, After(t, q)) == After(t, if q + 1 == t.Period() then 0 else q + 1)
    ensures Misses(t, After(t, q)) <==> q + 1 == t.Patience()
  {
    TicksMeaning(t.makTime, t.tick, q + 1);
    TicksMeaning(t.makTime, t.tick, q);
    TicksMeaning(t.makTimeout, t.tick, q + 1);
    TicksMeaning(t.makTimeout, t.tick, q);
    assert (q + 1) * t.tick == q * t.tick + t.tick;
    assert 0 * t.tick == 0;
    TicksMeaning(t.makTimeout, t.tick, 0);
  }

  /** The timers after `n` ticks of silence that began with the member's timer off. */
  function Silent(t: Times, mak: int, n: int): Clock
    requires t.Ok()
  {
    var f := FirstMak(t, mak);
    if n < f then Clock(mak - n * t.tick, -1) else After(t, (n - f) % t.Period())
  }

  function SilentMisses(t: Times, mak: int, n: int): int
    requires t.Ok()
  {
    var d := n - FirstMak(t, mak) - t.Patience();
    if t.Patience() > t.Period() || d < 0 then 0 else d / t.Period() + 1
  }

  /** The timers and the misses of a silent member in closed form. */
  lemma {:induction false} SilentRun(t: Times, mak: int, n: nat)
    requires t.Ok()
    ensures Run(t, Clock(mak, -1), Silence(n)) == Silent(t, mak, n)
    ensures Missed(t, Clock(mak, -1), Silence(n)) == SilentMisses(t, mak, n)
  {
    TicksMeaning(t.makTime, t.tick, 0);
    TicksMeaning(t.makTimeout, t.tick, 0);
    assert 0 * t.tick == 0;
    TicksMeaning(mak, t.tick, 0);
    if n == 0 {
    } else {
      SilentRun(t, mak, n - 1);
      SilenceStep(t, Clock(mak, -1), n);
      SilentStep(t, mak, n - 1);
    }
  }

  lemma SilentStep(t: Times, mak: int, n: nat)
    requires t.Ok()
    ensures Tick(t, Silent(t, mak, n)) == Silent(t, mak, n + 1)
    ensures SilentMisses(t, mak, n + 1) == SilentMisses(t, mak, n) + if Misses(t, Silent(t, mak, n)) then 1 else 0
  {
    var f, p, l := FirstMak(t, mak), t.Period(), t.Patience();
    TicksMeaning(t.makTime, t.tick, 0);
    TicksMeaning(t.makTimeout, t.tick, 0);
    if n < f {
      BeforeFirst(t, mak, n);
    } else {
      var q := (n - f) % p;
      NextMod(n - f, p);
      TickAfter(t, q);
      MissesStep(n - f, p, l);
    }
  }

  lemma BeforeFirst(t: Times, mak: int, n: nat)
    requires t.Ok() && n < FirstMak(t, mak)
    ensures Tick(t, Silent(t, mak, n)) == Silent(t, mak, n + 1) && !Misses(t, Silent(t, mak, n))
    ensures SilentMisses(t, mak, n + 1) == SilentMisses(t, mak, n) == 0
  {
    TicksMeaning(mak, t.tick, n + 1);
    TicksMeaning(mak, t.tick, n);
    TicksMeaning(t.makTimeout, t.tick, 0);
    TicksMeaning(t.makTime, t.tick, 0);
    assert (n + 1) * t.tick == n * t.tick + t.tick;
    assert 0 * t.tick == 0;
    DivMod(0, t.Period(), 0, 0);
  }

  /** Misses fall on every `l`-th tick of a period. */
  lemma MissesStep(x: nat, p: int, l: int)
    requires p > 0 && l > 0
    ensures var before, after := x - l, x + 1 - l;
            l <= p ==> (if after < 0 then 0 else after / p + 1)
                       == (if before < 0 then 0 else before / p + 1) + if x % p + 1 == l then 1 else 0
  {
    if l <= p {
      NextMod(x - l, p);
      ShiftMod(x, p, l);
      if x < l {
        if x < p { DivMod(x, p, 0, x); }
        DivMod(0, p, 0, 0);
      }
    }
  }

  /** A member that falls silent right after an ACK is removed, and then at the
      latest after `retries` MAK periods and one timeout, exactly if the timeout
      takes no longer than the time to the next MAK; otherwise each MAK starts
      the timeout anew and the member stays for ever. */
  lemma SilentRemoved(t: Times, mak: int, retries: int)
    requires t.Ok() && mak <= t.makTime && retries > 0
    ensures t.Patience() <= t.Period() ==>
              var last := FirstMak(t, mak) + (retries - 1) * t.Period() + t.Patience();
              && last <= retries * t.Period() + t.Patience()
              && forall n: nat :: MemberRun(t, Clock(mak, -1), Listed(retries), Silence(n)).Gone? <==> n >= last
    ensures t.Patience() > t.Period() ==>
              forall n: nat :: MemberRun(t, Clock(mak, -1), Listed(retries), Silence(n)) == Listed(retries)
  {
    var p := t.Period();
    TicksMeaning(t.makTime, t.tick, 0);
    FirstWithinPeriod(t, mak);
    assert (retries - 1) * p == retries * p - p;
    forall n: nat ensures MemberRun(t, Clock(mak, -1), Listed(retries), Silence(n)) ==
        if SilentMisses(t, mak, n) < retries then Listed(retries - SilentMisses(t, mak, n)) else Gone {
      SilentRun(t, mak, n);
      MissesAddUp(t, Clock(mak, -1), retries, Silence(n));
    }
    if t.Patience() <= p {
      var last := FirstMak(t, mak) + (retries - 1) * p + t.Patience();
      forall n: nat ensures SilentMisses(t, mak, n) >= retries <==> n >= last {
        Quotient(n - FirstMak(t, mak) - t.Patience(), p, retries - 1);
      }
    }
  }

  lemma FirstWithinPeriod(t: Times, mak: int)
    requires t.Ok() && mak <= t.makTime
    ensures 1 <= FirstMak(t, mak) <= t.Period()
  {
    TicksMeaning(t.makTime, t.tick, 0);
    TicksMeaning(mak, t.tick, 0);
    assert 0 * t.tick == 0;
    TicksMeaning(mak, t.tick, t.Period());
    TicksMeaning(t.makTime, t.tick, t.Period());
  }

  lemma Quotient(d: int, p: int, k: int)
    requires p > 0 && k >= 0
    ensures (if d < 0 then 0 else d / p + 1) >= k + 1 <==> d >= k * p
  {
    if d >= 0 {
      var q := d / p;
      assert d == q * p + d % p;
      if q >= k {
        if q > k { MulOrder(k, q, p); }
      } else {
        MulOrder(q, k, p);
      }
    } else {
      assert k * p >= 0;
    }
  }

  /** A timer that is running when the silence begins only makes things worse. */
  lemma {:induction false} RunningTimerMissesMore(t: Times, mak: int, expires: int, n: nat)
    ensures var a, b := Run(t, Clock(mak, expires), Silence(n)), Run(t, Clock(mak, -1), Silence(n));
            a.mak == b.mak && (a == b || b.expires == -1)
    ensures Missed(t, Clock(mak, expires), Silence(n)) >= Missed(t, Clock(mak, -1), Silence(n))
  {
    if n == 0 {
    } else {
      RunningTimerMissesMore(t, mak, expires, n - 1);
      SilenceStep(t, Clock(mak, expires), n);
      SilenceStep(t, Clock(mak, -1), n);
    }
  }

  /** Whenever it falls silent, a member is gone within the time stated. */
  lemma SilentRemovedInTime(t: Times, c: Clock, retries: int, n: nat)
    requires t.Ok() && c.mak <= t.makTime && retries > 0 && t.Patience() <= t.Period()
    requires n >= retries * t.Period() + t.Patience()
    ensures MemberRun(t, c, Listed(retries), Silence(n)).Gone?
  {
    SilentRemoved(t, c.mak, retries);
    RunningTimerMissesMore(t, c.mak, c.expires, n);
    MissesAddUp(t, Clock(c.mak, -1), retries, Silence(n));
    MissesAddUp(t, c, retries, Silence(n));
  }

  // ----- A member that answers -----

  /** Whether a MAK is waiting for its ACK, and how many ticks it has. */
  datatype Watch = Watch(pending: bool, since: nat)

  function WatchRun(t: Times, c: Clock, es: seq<Event>): Watch {
    if es == [] then Watch(false, 0)
    else
      var init := es[..|es| - 1];
      var w := WatchRun(t, c, init);
      match es[|es| - 1]
      case Ack => Watch(false, 0)
      case OneTick => if Maks(t, Run(t, c, init)) then Watch(true, 0) else w.(since := w.since + 1)
  }

  /** Every MAK is acknowledged before its timeout is over. */
  predicate Prompt(t: Times, c: Clock, es: seq<Event>)
    requires t.Ok()
  {
    es == [] ||
    var w := WatchRun(t, c, es[..|es| - 1]);
    Prompt(t, c, es[..|es| - 1]) && (es[|es| - 1].OneTick? && w.pending ==> w.since + 1 < t.Patience())
  }

  /** A member that always answers in time never costs a retry, and one that once
      does not, does. */
  lemma {:induction false} PromptNeverMisses(t: Times, mak: int, es: seq<Event>)
    requires t.Ok()
    ensures var c := Clock(mak, -1);
            && (Missed(t, c, es) == 0 <==> Prompt(t, c, es))
            && (Prompt(t, c, es) ==>
                  var w := WatchRun(t, c, es);
                  Run(t, c, es).expires == (if w.pending then t.makTimeout - w.since * t.tick else -1)
                  && (w.pending ==> w.since < t.Patience()))
  {
    TicksMeaning(t.makTimeout, t.tick, 0);
    assert 0 * t.tick == 0;
    if es == [] {
    } else {
      var c := Clock(mak, -1);
      PromptNeverMisses(t, mak, es[..|es| - 1]);
      var w := WatchRun(t, c, es[..|es| - 1]);
      TicksMeaning(t.makTimeout, t.tick, w.since);
      TicksMeaning(t.makTimeout, t.tick, w.since + 1);
      assert (w.since + 1) * t.tick == w.since * t.tick + t.tick;
    }
  }

  /** So the timer never removes it. */
  lemma PromptStays(t: Times, mak: int, retries: int, es: seq<Event>)
    requires t.Ok() && retries > 0 && Prompt(t, Clock(mak, -1), es)
    ensures MemberRun(t, Clock(mak, -1), Listed(retries), es) == Listed(retries)
  {
    PromptNeverMisses(t, mak, es);
    MissesAddUp(t, Clock(mak, -1), retries, es);
  }
}
