/** The member list of a channel as a value: what a tick, an ACK and a new member
    do to it, and what that means for one member over time
    (acnsrc/sdt/sdt.c). */
module SdtRoster {
  import opened Word
  import opened Wrappers
  import opened Chains
  import opened SdtTimers
  import opened SdtMid

  /** `sdt_member_t` without its link. Component 0 is NULL and marks a free slot;
      `doomed` stands for the state msDELETE, `connected` for msCONNECTED. */
  datatype Record = Record(component: nat, mid: uint16, doomed: bool, connected: bool, expires: int, retries: int)

  const FREE := Record(0, 0, false, false, 0, 0)

  /** What is sent to the other side, or told to the application. */
  datatype Notice = Leave(component: nat) | Leaving(component: nat) | Disconnected(component: nat)

  // ----- The pass of a tick as a function -----

  /** A record after its timer was looked at; `local` tells whether the leader is
      a local component. */
  function Aged(local: bool, tick: int, m: Record): Record {
    var expires := Countdown(m.expires, tick);
    if expires != 0 then m.(expires := expires)
    else if local then m.(expires := -1, retries := m.retries - 1, doomed := m.doomed || m.retries - 1 == 0)
    else m.(expires := 0, doomed := true)
  }

  function NoticesOf(local: bool, tick: int, m: Record): seq<Notice> {
    if m.doomed || !Aged(local, tick, m).doomed then []
    else
      (if m.connected then [Disconnected(m.component)] else [])
      + [if local then Leave(m.component) else Leaving(m.component)]
  }

  predicate Stays(local: bool, tick: int, m: Record) {
    !m.doomed && !Aged(local, tick, m).doomed
  }

  /** What the pass does to one member. */
  function Fate(local: bool, tick: int): Record -> Option<Record> {
    (m: Record) => if Stays(local, tick, m) then Some(Aged(local, tick, m)) else None
  }

  /** The members that stay, in order: those not marked before and not dropped by
      their timer now. */
  function Ticked(local: bool, tick: int, ms: seq<Record>): seq<Record> {
    Visited(Fate(local, tick), ms)
  }

  function Notices(local: bool, tick: int, ms: seq<Record>): seq<Notice> {
    if ms == [] then []
    else Notices(local, tick, ms[..|ms| - 1]) + NoticesOf(local, tick, ms[|ms| - 1])
  }

  lemma NoticesStep(local: bool, tick: int, ms: seq<Record>, d: nat)
    requires d < |ms|
    ensures Notices(local, tick, ms[..d + 1]) == Notices(local, tick, ms[..d]) + NoticesOf(local, tick, ms[d])
  {
    assert ms[..d + 1][..d] == ms[..d];
  }

  // ----- The tick of a locally led channel as a function -----

  function Restarted(ms: seq<Record>, timeout: int): (r: seq<Record>)
    ensures |r| == |ms|
  {
    seq(|ms|, i requires 0 <= i < |ms| => ms[i].(expires := timeout))
  }

  /** Members and MAK timer after a tick, and whether a MAK is sent. A channel
      without members is deleted, and its timer with it. */
  function LeaderTick(t: Times, ms: seq<Record>, mak: int): (seq<Record>, int, bool) {
    var stay := Ticked(true, t.tick, ms);
    if stay == [] then ([], mak, false)
    else if MakDown(t, mak) == 0 then (Restarted(stay, t.makTimeout), t.makTime, true)
    else (stay, MakDown(t, mak), false)
  }

  // ----- A locally led channel over time -----

  /** What is kept about one component. */
  function Keep(c: nat): Record -> Option<Record> {
    (m: Record) => if m.component == c then Some(m) else None
  }

  /** The records of one component, in list order. */
  function OfComponent(ms: seq<Record>, c: nat): seq<Record> {
    Visited(Keep(c), ms)
  }

  /** An ACK turns off the timer of its component's first record. */
  function Acked(ms: seq<Record>, c: nat): (r: seq<Record>)
    ensures |r| == |ms|
  {
    if ms == [] then []
    else
      var init, m := ms[..|ms| - 1], ms[|ms| - 1];
      if OfComponent(init, c) != [] then Acked(init, c) + [m]
      else init + [if m.component == c then m.(expires := -1) else m]
  }

  /** The first record of a component is at `i`, or there is none. */
  ghost predicate FirstOf(ms: seq<Record>, c: nat, i: nat) {
    && i <= |ms| && (forall j :: 0 <= j < i ==> ms[j].component != c)
    && (i < |ms| ==> ms[i].component == c)
  }

  lemma {:induction false} NoneOf(ms: seq<Record>, c: nat)
    requires forall j :: 0 <= j < |ms| ==> ms[j].component != c
    ensures OfComponent(ms, c) == [] && Acked(ms, c) == ms
  {
    if ms == [] {
    } else {
      NoneOf(ms[..|ms| - 1], c);
    }
  }

  lemma {:induction false} FirstAcked(ms: seq<Record>, c: nat, i: nat)
    requires FirstOf(ms, c, i)
    ensures OfComponent(ms, c) == [] <==> i == |ms|
    ensures Acked(ms, c) == if i < |ms| then ms[i := ms[i].(expires := -1)] else ms
  {
    if i == |ms| {
      NoneOf(ms, c);
    } else if i == |ms| - 1 {
      NoneOf(ms[..i], c);
    } else {
      FirstAcked(ms[..|ms| - 1], c, i);
    }
  }

  /** The member list and the MAK timer. */
  datatype Led = Led(ms: seq<Record>, mak: int)

  datatype Happening = TickAll | AckFrom(component: nat) | Arrives(m: Record)

  function LedStep(t: Times, s: Led, e: Happening): Led {
    match e
    case TickAll => var r := LeaderTick(t, s.ms, s.mak); Led(r.0, r.1)
    case AckFrom(c) => s.(ms := Acked(s.ms, c))
    case Arrives(m) => s.(ms := [m] + s.ms)
  }

  /** A MAK is sent to all members. */
  predicate MakSent(t: Times, s: Led, e: Happening) {
    e.TickAll? && LeaderTick(t, s.ms, s.mak).2
  }

  function LedRun(t: Times, s: Led, es: seq<Happening>): Led {
    if es == [] then s else LedStep(t, LedRun(t, s, es[..|es| - 1]), es[|es| - 1])
  }

  /** What of a run concerns one component. */
  function Own(c: nat, es: seq<Happening>): seq<SdtTimers.Event> {
    if es == [] then []
    else Own(c, es[..|es| - 1]) + OwnPart(c, es[|es| - 1])
  }

  function OwnPart(c: nat, e: Happening): (part: seq<SdtTimers.Event>)
    ensures |part| <= 1
  {
    match e
    case TickAll => [OneTick]
    case AckFrom(d) => if d == c then [Ack] else []
    case Arrives(_) => []
  }

  /** Nobody adds the component a second time. */
  ghost predicate NoNamesake(c: nat, es: seq<Happening>) {
    forall e :: e in es && e.Arrives? ==> e.m.component != c
  }

  lemma FateKeepsOwner(local: bool, tick: int, m: Record, c: nat)
    ensures Then(Fate(local, tick), Keep(c))(m) == Then(Keep(c), Fate(local, tick))(m)
  {
  }

  lemma TickedOf(local: bool, tick: int, ms: seq<Record>, c: nat)
    ensures OfComponent(Ticked(local, tick, ms), c) == Ticked(local, tick, OfComponent(ms, c))
  {
    hide Visited, Fate, Keep;
    var fate, keep := Fate(local, tick), Keep(c);
    VisitedTwice(fate, keep, ms);
    VisitedTwice(keep, fate, ms);
    forall m | m in ms ensures Then(fate, keep)(m) == Then(keep, fate)(m) {
      FateKeepsOwner(local, tick, m, c);
    }
    VisitedAlike(Then(fate, keep), Then(keep, fate), ms);
  }

  lemma {:induction false} RestartedOf(ms: seq<Record>, timeout: int, c: nat)
    ensures OfComponent(Restarted(ms, timeout), c) == Restarted(OfComponent(ms, c), timeout)
  {
    if ms == [] {
    } else {
      RestartedOf(ms[..|ms| - 1], timeout, c);
      assert Restarted(ms, timeout)[..|ms| - 1] == Restarted(ms[..|ms| - 1], timeout);
    }
  }

  lemma {:induction false} AckedOf(ms: seq<Record>, d: nat, c: nat)
    ensures var own := OfComponent(ms, c);
            OfComponent(Acked(ms, d), c) ==
            if c == d && own != [] then own[0 := own[0].(expires := -1)] else own
  {
    if ms == [] {
    } else {
      AckedOf(ms[..|ms| - 1], d, c);
    }
  }

  lemma {:induction false} ArrivedOf(m: Record, ms: seq<Record>, c: nat)
    requires m.component != c
    ensures OfComponent([m] + ms, c) == OfComponent(ms, c)
  {
    if ms == [] {
    } else {
      ArrivedOf(m, ms[..|ms| - 1], c);
      assert ([m] + ms)[..|ms|] == [m] + ms[..|ms| - 1];
    }
  }

  /** The channel shows the member `m` as its two timers have left it. */
  predicate Shows(s: Led, m: Record, clock: Clock, status: SdtTimers.Member) {
    match status
    case Gone => OfComponent(s.ms, m.component) == []
    case Listed(retries) =>
      && retries > 0 && s.mak == clock.mak
      && OfComponent(s.ms, m.component) == [m.(expires := clock.expires, retries := retries)]
  }

  lemma TickShows(t: Times, s: Led, m: Record, clock: Clock, status: SdtTimers.Member)
    requires Shows(s, m, clock, status) && !m.doomed
    ensures Shows(LedStep(t, s, TickAll), m, Tick(t, clock), MemberStep(t, clock, status, OneTick))
  {
    var stay := Ticked(true, t.tick, s.ms);
    TickedOf(true, t.tick, s.ms, m.component);
    RestartedOf(stay, t.makTimeout, m.component);
    if status.Listed? {
      var now := m.(expires := clock.expires, retries := status.retries);
      VisitedOne(Fate(true, t.tick), now);
    }
  }

  lemma HappeningShows(t: Times, s: Led, m: Record, clock: Clock, status: SdtTimers.Member, e: Happening)
    requires Shows(s, m, clock, status) && !m.doomed && (e.Arrives? ==> e.m.component != m.component)
    ensures var part := OwnPart(m.component, e);
            if part == [] then Shows(LedStep(t, s, e), m, clock, status)
            else Shows(LedStep(t, s, e), m, SdtTimers.Step(t, clock, part[0]), MemberStep(t, clock, status, part[0]))
  {
    match e {
      case TickAll => TickShows(t, s, m, clock, status);
      case AckFrom(d) => AckedOf(s.ms, d, m.component);
      case Arrives(n) => ArrivedOf(n, s.ms, m.component);
    }
  }

  /** Over any run each member of a locally led channel goes through its timers as
      the two-timer model says, whatever happens to the others. */
  lemma {:induction false} FollowsTimers(t: Times, s: Led, m: Record, es: seq<Happening>)
    requires OfComponent(s.ms, m.component) == [m] && !m.doomed && m.retries > 0 && NoNamesake(m.component, es)
    ensures var c, own := Clock(s.mak, m.expires), Own(m.component, es);
            Shows(LedRun(t, s, es), m, SdtTimers.Run(t, c, own), MemberRun(t, c, Listed(m.retries), own))
  {
    hide LedStep, SdtTimers.Step, MemberStep, OfComponent;
    if es == [] {
    } else {
      var init, e := es[..|es| - 1], es[|es| - 1];
      assert e in es;
      FollowsTimers(t, s, m, init);
      var c, own, part := Clock(s.mak, m.expires), Own(m.component, init), OwnPart(m.component, e);
      HappeningShows(t, LedRun(t, s, init), m, SdtTimers.Run(t, c, own), MemberRun(t, c, Listed(m.retries), own), e);
      assert (own + part)[..|own|] == own && (part == [] ==> own + part == own);
    }
  }

  function TickCount(es: seq<Happening>): nat {
    if es == [] then 0 else TickCount(es[..|es| - 1]) + if es[|es| - 1].TickAll? then 1 else 0
  }

  lemma {:induction false} SilentOwn(c: nat, es: seq<Happening>)
    requires AckFrom(c) !in es
    ensures Own(c, es) == Silence(TickCount(es))
  {
    if es == [] {
    } else {
      SilentOwn(c, es[..|es| - 1]);
      assert es[|es| - 1] in es;
      assert Silence(TickCount(es)) == Silence(TickCount(es[..|es| - 1])) + OwnPart(c, es[|es| - 1]);
    }
  }

  /** A member that stays silent is off the list in time, and if its timer was
      off, leaves it with one exact tick. */
  lemma SilentLeaves(t: Times, s: Led, m: Record, es: seq<Happening>)
    requires OfComponent(s.ms, m.component) == [m] && !m.doomed && m.retries > 0 && NoNamesake(m.component, es)
    requires t.Ok() && s.mak <= t.makTime && t.Patience() <= t.Period() && AckFrom(m.component) !in es
    ensures TickCount(es) >= m.retries * t.Period() + t.Patience() ==>
            OfComponent(LedRun(t, s, es).ms, m.component) == []
    ensures m.expires == -1 ==>
              (OfComponent(LedRun(t, s, es).ms, m.component) == [] <==>
               TickCount(es) >= FirstMak(t, s.mak) + (m.retries - 1) * t.Period() + t.Patience())
  {
    hide *;
    FollowsTimers(t, s, m, es);
    SilentOwn(m.component, es);
    var c, n := Clock(s.mak, m.expires), TickCount(es);
    SilentRemoved(t, s.mak, m.retries);
    if n >= m.retries * t.Period() + t.Patience() {
      SilentRemovedInTime(t, c, m.retries, n);
    }
    ShownIff(LedRun(t, s, es), m, SdtTimers.Run(t, c, Silence(n)), MemberRun(t, c, Listed(m.retries), Silence(n)));
  }

  lemma ShownIff(s: Led, m: Record, clock: Clock, status: SdtTimers.Member)
    requires Shows(s, m, clock, status)
    ensures OfComponent(s.ms, m.component) == [] <==> status.Gone?
  {
  }

  /** A member that answers every MAK in time stays on the list with all its
      retries. */
  lemma PromptStaysListed(t: Times, s: Led, m: Record, es: seq<Happening>)
    requires OfComponent(s.ms, m.component) == [m] && !m.doomed && m.retries > 0 && NoNamesake(m.component, es)
    requires t.Ok() && m.expires == -1 && Prompt(t, Clock(s.mak, -1), Own(m.component, es))
    ensures OfComponent(LedRun(t, s, es).ms, m.component) ==
            [m.(expires := SdtTimers.Run(t, Clock(s.mak, -1), Own(m.component, es)).expires)]
  {
    FollowsTimers(t, s, m, es);
    PromptStays(t, s.mak, m.retries, Own(m.component, es));
  }

  // ----- When a MAK is sent -----

  /** The numbers of the ticks in which a MAK was sent, counting from 1. */
  function MakTicks(t: Times, s: Led, es: seq<Happening>): seq<nat> {
    if es == [] then []
    else
      var init, e := es[..|es| - 1], es[|es| - 1];
      MakTicks(t, s, init) + if MakSent(t, LedRun(t, s, init), e) then [TickCount(es)] else []
  }

  /** Members are listed after every tick. */
  predicate Manned(t: Times, s: Led, es: seq<Happening>) {
    es == [] || (Manned(t, s, es[..|es| - 1]) && (es[|es| - 1].TickAll? ==> LedRun(t, s, es).ms != []))
  }

  /** The first MAK is due at tick `FirstMak`, and then one in every period. */
  predicate MakDue(t: Times, mak: int, n: nat)
    requires t.Ok()
  {
    var d := n - FirstMak(t, mak);
    d >= 0 && d % t.Period() == 0
  }

  lemma MakAtTick(t: Times, mak: int, n: nat)
    requires t.Ok()
    ensures Maks(t, Silent(t, mak, n)) <==> MakDue(t, mak, n + 1)
  {
    var f, p := FirstMak(t, mak), t.Period();
    TicksMeaning(t.makTime, t.tick, 0);
    TicksMeaning(mak, t.tick, 0);
    assert 0 * t.tick == 0;
    if n < f {
      TicksMeaning(mak, t.tick, n + 1);
      assert (n + 1) * t.tick == n * t.tick + t.tick;
      if n + 1 == f {
        DivMod(0, p, 0, 0);
      }
    } else {
      var q := (n - f) % p;
      NextMod(n - f, p);
      TicksMeaning(t.makTime, t.tick, q + 1);
      assert (q + 1) * t.tick == q * t.tick + t.tick;
    }
  }

  lemma MakTimerStep(t: Times, s: Led, e: Happening, clock: Clock)
    requires s.mak == clock.mak && (e.TickAll? ==> LedStep(t, s, e).ms != [])
    ensures LedStep(t, s, e).mak == if e.TickAll? then Tick(t, clock).mak else clock.mak
    ensures MakSent(t, s, e) <==> e.TickAll? && Maks(t, clock)
  {
  }

  /** The MAK timer runs by itself, whatever the members do. */
  lemma {:induction false} MakTimer(t: Times, s: Led, es: seq<Happening>)
    requires t.Ok() && Manned(t, s, es)
    ensures LedRun(t, s, es).mak == Silent(t, s.mak, TickCount(es)).mak
    ensures forall n :: n in MakTicks(t, s, es) ==> n <= TickCount(es)
    ensures forall n: nat :: n in MakTicks(t, s, es) <==> 1 <= n <= TickCount(es) && MakDue(t, s.mak, n)
  {
    hide Silent, MakDue, LedStep, MakSent, Tick, Maks;
    if es == [] {
      SilentBegins(t, s.mak);
    } else {
      var init, e := es[..|es| - 1], es[|es| - 1];
      MakTimer(t, s, init);
      var n := TickCount(init);
      var clock := Silent(t, s.mak, n);
      MakTimerStep(t, LedRun(t, s, init), e, clock);
      SilentStep(t, s.mak, n);
      MakAtTick(t, s.mak, n);
    }
  }

  lemma SilentBegins(t: Times, mak: int)
    requires t.Ok()
    ensures Silent(t, mak, 0).mak == mak
  {
    TicksMeaning(mak, t.tick, 0);
    assert 0 * t.tick == 0;
  }

  /** While members are listed, a MAK goes out in exactly the ticks `FirstMak`,
      `FirstMak` plus one period, and so on, whatever is acknowledged and whoever
      arrives. */
  lemma MaksOnTime(t: Times, s: Led, es: seq<Happening>, n: nat)
    requires t.Ok() && Manned(t, s, es)
    ensures n in MakTicks(t, s, es) <==>
            n <= TickCount(es) && exists k: nat :: n == FirstMak(t, s.mak) + k * t.Period()
  {
    hide MakTicks, MakDue, Manned, TickCount, FirstMak, Times.Period, LedRun;
    MakTimer(t, s, es);
    MaksBegin(t, s.mak);
    DueExactly(t, s.mak, n);
    if MakDue(t, s.mak, n) {
      assert n >= 1;
    }
  }

  lemma MaksBegin(t: Times, mak: int)
    requires t.Ok()
    ensures FirstMak(t, mak) >= 1 && t.Period() >= 1
    ensures forall n: nat :: MakDue(t, mak, n) ==> n >= 1
  {
    TicksMeaning(t.makTime, t.tick, 0);
    TicksMeaning(mak, t.tick, 0);
    assert 0 * t.tick == 0;
  }

  lemma DueExactly(t: Times, mak: int, n: nat)
    requires t.Ok() && t.Period() >= 1
    ensures MakDue(t, mak, n) <==> exists k: nat :: n == FirstMak(t, mak) + k * t.Period()
  {
    hide Times.Period, FirstMak;
    var f, p := FirstMak(t, mak), t.Period();
    if MakDue(t, mak, n) {
      Quotient(n - f, p);
      assert n == f + ((n - f) / p) * p;
    }
    forall k: nat | n == f + k * p ensures MakDue(t, mak, n) {
      Multiple(k, p);
    }
  }

  lemma Quotient(d: nat, p: nat)
    requires p > 0 && d % p == 0
    ensures d / p >= 0 && d == (d / p) * p
  {
  }

  lemma Multiple(k: nat, p: nat)
    requires p > 0
    ensures k * p >= 0 && (k * p) % p == 0
  {
    DivMod(k * p, p, k, 0);
  }

  /** A member's timeout starts in a tick that sends a MAK and in no other: from a
      timer that is off, it is running after the tick exactly if a MAK went out; and
      no tick without a MAK sets a timer forward. */
  lemma TimeoutStartsWithMak(t: Times, s: Led, m: Record, m': Record)
    requires t.Ok() && m.component == m'.component
    requires OfComponent(s.ms, m.component) == [m] && OfComponent(LedStep(t, s, TickAll).ms, m.component) == [m']
    ensures MakSent(t, s, TickAll) ==> m'.expires == t.makTimeout
    ensures !MakSent(t, s, TickAll) ==> m'.expires <= m.expires
    ensures m.expires < 0 ==> (m'.expires > 0 <==> MakSent(t, s, TickAll))
  {
    var stay := Ticked(true, t.tick, s.ms);
    TickedOf(true, t.tick, s.ms, m.component);
    RestartedOf(stay, t.makTimeout, m.component);
    VisitedOne(Fate(true, t.tick), m);
    if MakSent(t, s, TickAll) {
      var own := OfComponent(stay, m.component);
      assert Restarted(own, t.makTimeout) == [m'];
      assert Restarted(own, t.makTimeout)[0] == own[0].(expires := t.makTimeout);
    }
  }

  // ----- Who is told -----

  /** The timer drops the member in this pass: it runs out, and at a leader the
      last retry is used. */
  predicate RunsOut(local: bool, tick: int, m: Record) {
    !m.doomed && 0 <= m.expires <= tick && (local ==> m.retries == 1)
  }

  /** A member stays exactly if it was not marked and its timer does not drop it. */
  lemma StaysExactly(local: bool, tick: int, m: Record)
    requires tick > 0
    ensures Stays(local, tick, m) <==> !m.doomed && !RunsOut(local, tick, m)
    ensures Stays(local, tick, m) ==>
              Aged(local, tick, m) ==
              if m.expires < 0 then m
              else if m.expires > tick then m.(expires := m.expires - tick)
              else m.(expires := -1, retries := m.retries - 1)
  {
  }

  /** What one member's removal by its timer causes. */
  function Farewell(local: bool, m: Record): seq<Notice> {
    if m.connected && local then [Disconnected(m.component), Leave(m.component)]
    else if m.connected then [Disconnected(m.component), Leaving(m.component)]
    else if local then [Leave(m.component)]
    else [Leaving(m.component)]
  }

  function Farewells(local: bool, tick: int, ms: seq<Record>): seq<Notice> {
    if ms == [] then []
    else
      var m := ms[|ms| - 1];
      Farewells(local, tick, ms[..|ms| - 1]) + if RunsOut(local, tick, m) then Farewell(local, m) else []
  }

  /** A leader sends LEAVE to, and a member sends LEAVING for, exactly the members
      dropped by their timer, in list order; the application hears of those that
      were connected, before the message goes out; nobody is told of members that
      were marked before. */
  lemma {:induction false} NoticesExactly(local: bool, tick: int, ms: seq<Record>)
    requires tick > 0
    ensures Notices(local, tick, ms) == Farewells(local, tick, ms)
  {
    if ms == [] {
    } else {
      NoticesExactly(local, tick, ms[..|ms| - 1]);
      StaysExactly(local, tick, ms[|ms| - 1]);
    }
  }

  // ----- A local member in a foreign channel -----

  /** The list after `n` passes of a channel that a foreign component leads. */
  function ForeignPasses(tick: int, ms: seq<Record>, n: nat): seq<Record> {
    if n == 0 then ms else Ticked(false, tick, ForeignPasses(tick, ms, n - 1))
  }

  /** What is left of a silent local member after `n` ticks of a foreign channel. */
  function Waiting(tick: int, m: Record, n: nat): seq<Record> {
    if m.expires < 0 then [m]
    else if n == 0 || n * tick < m.expires then [m.(expires := m.expires - n * tick)]
    else []
  }

  lemma WaitingTicks(tick: int, m: Record, n: nat)
    requires tick > 0 && !m.doomed && n > 0
    ensures Ticked(false, tick, Waiting(tick, m, n - 1)) == Waiting(tick, m, n)
  {
    hide Visited;
    var passed := (n - 1) * tick;
    assert n * tick == passed + tick && (n > 1 ==> passed > 0) && (n == 1 ==> passed == 0);
    TickedOne(tick, m);
    TickedOne(tick, m.(expires := m.expires - passed));
  }

  lemma TickedOne(tick: int, m: Record)
    requires !m.doomed
    ensures Ticked(false, tick, []) == []
    ensures Ticked(false, tick, [m]) == match Fate(false, tick)(m) case None => [] case Some(r) => [r]
  {
    VisitedOne(Fate(false, tick), m);
  }

  /** A local member of a foreign channel that hears nothing goes with the first
      expiry of its timer, whatever its retries, and stays for ever without one. */
  lemma {:induction false} ForeignExpires(tick: int, ms: seq<Record>, m: Record, n: nat)
    requires tick > 0 && OfComponent(ms, m.component) == [m] && !m.doomed
    ensures OfComponent(ForeignPasses(tick, ms, n), m.component) ==
            if m.expires < 0 then [m]
            else if n == 0 || n * tick < m.expires then [m.(expires := m.expires - n * tick)]
            else []
  {
    hide OfComponent, Ticked;
    if n == 0 {
      assert 0 * tick == 0;
    } else {
      ForeignExpires(tick, ms, m, n - 1);
      TickedOf(false, tick, ForeignPasses(tick, ms, n - 1), m.component);
      WaitingTicks(tick, m, n);
    }
  }

  // ----- The identifiers of a list -----

  function MidsOf(ms: seq<Record>): (held: seq<uint16>)
    ensures |held| == |ms|
  {
    seq(|ms|, i requires 0 <= i < |ms| => ms[i].mid)
  }

  lemma MidsOfRest(ms: seq<Record>, i: nat)
    requires i < |ms|
    ensures MidsOf(Without(ms, i)) == Without(MidsOf(ms), i)
  {
  }

  lemma MidsOfUpdated(ms: seq<Record>, i: nat, m: Record)
    requires i < |ms|
    ensures MidsOf(ms[i := m]) == MidsOf(ms)[i := m.mid]
  {
  }

  lemma MidsMidway(local: bool, tick: int, ms: seq<Record>, d: nat)
    requires d < |ms|
    ensures var now, i := Midway(Fate(local, tick), ms, d), Position(Fate(local, tick), ms, d);
            && i < |now|
            && MidsOf(Midway(Fate(local, tick), ms, d + 1)) ==
               if Stays(local, tick, ms[d]) then MidsOf(now) else Without(MidsOf(now), i)
  {
    hide MidsOf, Visited, Stays;
    var now, i := Midway(Fate(local, tick), ms, d), Position(Fate(local, tick), ms, d);
    MidwayStep(Fate(local, tick), ms, d);
    if Stays(local, tick, ms[d]) {
      MidsOfUpdated(now, i, Aged(local, tick, now[i]));
      SameMid(now, i, Aged(local, tick, now[i]));
    } else {
      MidsOfRest(now, i);
    }
  }

  lemma SameMid(ms: seq<Record>, i: nat, m: Record)
    requires i < |ms| && m.mid == ms[i].mid
    ensures MidsOf(ms)[i := m.mid] == MidsOf(ms)
  {
  }

  /** What a pass does to the identifiers is a series of deletions. */
  lemma {:induction false} PassDeletes(max: nat, local: bool, tick: int, ms: seq<Record>, d: nat, available: uint16)
    returns (es: seq<SdtMid.Event>)
    requires d <= |ms|
    ensures forall e :: e in es ==> e.DeleteMember?
    ensures SdtMid.Run(max, Mids(MidsOf(ms), available), es) ==
            Mids(MidsOf(Midway(Fate(local, tick), ms, d)), available)
  {
    hide Midway, Position, Visited, Stays, Aged, MidsOf, NextMid;
    if d == 0 {
      es := [];
      MidwayStart(Fate(local, tick), ms);
    } else {
      es := PassDeletes(max, local, tick, ms, d - 1, available);
      MidsMidway(local, tick, ms, d - 1);
      if !Stays(local, tick, ms[d - 1]) {
        var e := DeleteMember(Position(Fate(local, tick), ms, d - 1));
        SdtMid.RunOneMore(max, Mids(MidsOf(ms), available), es, e);
        es := es + [e];
      }
    }
  }
}
