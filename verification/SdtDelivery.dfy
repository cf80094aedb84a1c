/** One leader, one member and a network that loses, duplicates and reorders:
    what a member's sequence gate lets through over a whole run. */
module SdtDelivery {
  import opened Word
  import opened SdtSequence

  /** The counters announced by a JOIN. */
  datatype Join = Join(total: int, reliable: int)

  /** `log` holds every wrapper the leader ever sent and `joins` every JOIN; the
      network may hand over any of them at any time, any number of times.
      `base` is the reliable number of the JOIN last taken, `delivered` the log
      indices of the reliable wrappers passed on since then. */
  datatype State = State(
    leader: Position,
    sent: bool,
    log: seq<Wrapper>,
    joins: seq<Join>,
    joined: bool,
    member: Position,
    base: int,
    delivered: seq<nat>)

  datatype Event =
    | Send(isReliable: bool)
    | OtherChannelSends
    | OfferJoin
    | TakeJoin(join: nat)
    | Receive(index: nat)

  function Start(sent: bool): State {
    State(Position(0, 0, 0), sent, [], [], false, Position(0, 0, 0), 0, [])
  }

  /** The event hands a wrapper to a joined member that passes it on. */
  predicate HandsOn(ar: Arith, s: State, e: Event) {
    && e.Receive? && s.joined && e.index < |s.log|
    && Passes(Judge(ar, s.member, s.log[e.index]), s.log[e.index].isReliable)
  }

  predicate PassesOn(ar: Arith, s: State, e: Event) {
    HandsOn(ar, s, e) && s.log[e.index].isReliable
  }

  function Step(ar: Arith, maxResends: nat, s: State, e: Event): State {
    match e
    case Send(isReliable) =>
      var p := Stamp(ar, maxResends, s.leader, s.sent, isReliable);
      s.(leader := p, sent := s.sent || isReliable, log := s.log + [Header(isReliable, p)])
    case OtherChannelSends =>
      s.(sent := true)
    case OfferJoin =>
      s.(joins := s.joins + [Join(s.leader.total, s.leader.reliable)])
    case TakeJoin(j) =>
      if j < |s.joins| then
        var join := s.joins[j];
        s.(joined := true, member := Position(join.total, join.reliable, s.member.oldest),
           base := join.reliable, delivered := [])
      else s
    case Receive(i) =>
      if s.joined && i < |s.log| then
        var w := s.log[i];
        s.(member := Advance(ar, s.member, w),
           delivered := if PassesOn(ar, s, e) then s.delivered + [i] else s.delivered)
      else s
  }

  function Run(ar: Arith, maxResends: nat, s: State, es: seq<Event>): State {
    if es == [] then s
    else Step(ar, maxResends, Run(ar, maxResends, s, es[..|es| - 1]), es[|es| - 1])
  }

  // ----- The leader's log -----

  /** The reliable number in force after the first `t` wrappers. */
  function ReliableAt(log: seq<Wrapper>, t: int): int
    requires 0 <= t <= |log|
  {
    if t == 0 then 0 else log[t - 1].reliable
  }

  /** The resend window a reliable number may be advertised with. */
  predicate Window(maxResends: nat, reliable: int, oldest: int) {
    0 <= oldest <= reliable &&
    if maxResends <= reliable then oldest == reliable - maxResends + 1 else oldest <= 1
  }

  predicate EntryOk(maxResends: nat, log: seq<Wrapper>, i: int)
    requires 0 <= i < |log|
  {
    && log[i].total == i + 1
    && log[i].reliable == ReliableAt(log, i) + (if log[i].isReliable then 1 else 0)
    && Window(maxResends, log[i].reliable, log[i].oldest)
  }

  ghost predicate LogOk(maxResends: nat, log: seq<Wrapper>) {
    forall i {:trigger log[i]} :: 0 <= i < |log| ==> EntryOk(maxResends, log, i)
  }

  lemma OnLogEntry(maxResends: nat, log: seq<Wrapper>, i: nat)
    requires LogOk(maxResends, log) && i < |log|
    ensures EntryOk(maxResends, log, i)
  {
  }

  lemma {:induction false} LogRises(maxResends: nat, log: seq<Wrapper>, i: int, j: int)
    requires LogOk(maxResends, log)
    requires 0 <= i <= j <= |log|
    ensures 0 <= ReliableAt(log, i) <= ReliableAt(log, j) <= ReliableAt(log, i) + (j - i)
    ensures i < j && log[j - 1].isReliable ==> ReliableAt(log, i) < ReliableAt(log, j)
    decreases j - i, j
  {
    hide LogOk;
    if i < j {
      LogRises(maxResends, log, i, j - 1);
      OnLogEntry(maxResends, log, j - 1);
    } else if i > 0 {
      LogRises(maxResends, log, i - 1, i - 1);
      OnLogEntry(maxResends, log, i - 1);
    }
  }

  /** Reliable wrappers are told apart by their reliable number. */
  lemma ReliableUnique(maxResends: nat, log: seq<Wrapper>, i: nat, j: nat)
    requires LogOk(maxResends, log) && i < |log| && j < |log|
    requires log[i].isReliable && log[j].isReliable && log[i].reliable == log[j].reliable
    ensures i == j
  {
    hide LogOk;
    if i < j {
      LogRises(maxResends, log, i + 1, j + 1);
    } else if j < i {
      LogRises(maxResends, log, j + 1, i + 1);
    }
  }

  /** Every reliable number up to the leader's own belongs to a logged wrapper. */
  lemma {:induction false} ReliableExists(maxResends: nat, log: seq<Wrapper>, n: int) returns (i: nat)
    requires LogOk(maxResends, log) && 0 < n <= ReliableAt(log, |log|)
    ensures i < |log| && log[i].isReliable && log[i].reliable == n
  {
    var t := |log|;
    while ReliableAt(log, t - 1) >= n
      invariant 0 < t <= |log| && ReliableAt(log, t) >= n
      decreases t
    {
      t := t - 1;
      LogRises(maxResends, log, 0, t);
    }
    i := t - 1;
    assert EntryOk(maxResends, log, i);
  }

  // ----- What every step keeps, without counter overflow -----

  predicate OnLog(log: seq<Wrapper>, total: int, reliable: int) {
    0 <= total <= |log| && reliable == ReliableAt(log, total)
  }

  predicate Delivers(log: seq<Wrapper>, base: int, delivered: seq<nat>, k: int)
    requires 0 <= k < |delivered|
  {
    var i := delivered[k];
    i < |log| && log[i].isReliable && log[i].reliable == base + k + 1
  }

  /** `delivered` is the leader's wrappers `base+1 .. upto`, in order, none
      missing and none twice. */
  ghost predicate InOrder(log: seq<Wrapper>, base: int, upto: int, delivered: seq<nat>) {
    && |delivered| == upto - base
    && forall k {:trigger delivered[k]} :: 0 <= k < |delivered| ==> Delivers(log, base, delivered, k)
  }

  ghost predicate Inv(maxResends: nat, s: State) {
    && LogOk(maxResends, s.log)
    && s.leader.total == |s.log|
    && s.leader.reliable == ReliableAt(s.log, |s.log|)
    && Window(maxResends, s.leader.reliable, s.leader.oldest)
    && (!s.sent ==> s.leader.reliable == 0)
    && (forall j :: 0 <= j < |s.joins| ==> OnLog(s.log, s.joins[j].total, s.joins[j].reliable))
    && OnLog(s.log, s.member.total, s.member.reliable)
    && InOrder(s.log, s.base, s.member.reliable, s.delivered)
  }

  lemma LogGrows(maxResends: nat, s: State, isReliable: bool)
    requires maxResends > 0 && Inv(maxResends, s)
    ensures var s' := Step(Exact, maxResends, s, Send(isReliable));
            && LogOk(maxResends, s'.log) && Window(maxResends, s'.leader.reliable, s'.leader.oldest)
            && (!s'.sent ==> s'.leader.reliable == 0)
  {
    var s' := Step(Exact, maxResends, s, Send(isReliable));
    LogRises(maxResends, s.log, 0, |s.log|);
    forall i | 0 <= i < |s'.log| ensures EntryOk(maxResends, s'.log, i) {
      if i < |s.log| {
        OnLogEntry(maxResends, s.log, i);
        assert s'.log[i] == s.log[i];
      }
    }
  }

  lemma SendKeeps(maxResends: nat, s: State, isReliable: bool)
    requires maxResends > 0 && Inv(maxResends, s)
    ensures Inv(maxResends, Step(Exact, maxResends, s, Send(isReliable)))
  {
    var s' := Step(Exact, maxResends, s, Send(isReliable));
    LogGrows(maxResends, s, isReliable);
    forall j | 0 <= j < |s'.joins| ensures OnLog(s'.log, s'.joins[j].total, s'.joins[j].reliable) {
      assert OnLog(s.log, s.joins[j].total, s.joins[j].reliable);
    }
    forall k | 0 <= k < |s'.delivered| ensures Delivers(s'.log, s'.base, s'.delivered, k) {
      assert Delivers(s.log, s.base, s.delivered, k);
    }
  }

  /** The verdict on a logged wrapper, read off its numbers. */
  lemma JudgeOnLog(maxResends: nat, log: seq<Wrapper>, m: Position, i: nat)
    requires maxResends > 0 && LogOk(maxResends, log) && i < |log| && OnLog(log, m.total, m.reliable)
    ensures var w := log[i];
            && (Judge(Exact, m, w) == Duplicate <==> w.total <= m.total)
            && (Judge(Exact, m, w) == Valid <==>
                w.total > m.total && w.reliable == m.reliable + (if w.isReliable then 1 else 0))
            && (Judge(Exact, m, w) == Lost <==> w.total > m.total && w.reliable > m.reliable + maxResends)
            && Judge(Exact, m, w) != OldPacket
            && (w.total > m.total ==> w.reliable >= m.reliable + (if w.isReliable then 1 else 0))
  {
    hide LogOk;
    var w := log[i];
    OnLogEntry(maxResends, log, i);
    LogRises(maxResends, log, 0, m.total);
    if w.total > m.total {
      LogRises(maxResends, log, m.total, i + 1);
    }
  }

  lemma ReceiveKeeps(maxResends: nat, s: State, i: nat)
    requires maxResends > 0 && Inv(maxResends, s) && s.joined && i < |s.log|
    ensures Inv(maxResends, Step(Exact, maxResends, s, Receive(i)))
  {
    var s' := Step(Exact, maxResends, s, Receive(i));
    assert EntryOk(maxResends, s.log, i);
    JudgeOnLog(maxResends, s.log, s.member, i);
    forall k | 0 <= k < |s'.delivered| ensures Delivers(s'.log, s'.base, s'.delivered, k) {
      if k < |s.delivered| {
        assert Delivers(s.log, s.base, s.delivered, k);
      }
    }
  }

  lemma StepKeeps(maxResends: nat, s: State, e: Event)
    requires maxResends > 0 && Inv(maxResends, s)
    ensures Inv(maxResends, Step(Exact, maxResends, s, e))
  {
    match e {
      case Send(isReliable) => SendKeeps(maxResends, s, isReliable);
      case Receive(i) =>
        if s.joined && i < |s.log| {
          ReceiveKeeps(maxResends, s, i);
        }
      case _ =>
    }
  }

  lemma {:induction false} RunKeeps(maxResends: nat, s: State, es: seq<Event>)
    requires maxResends > 0 && Inv(maxResends, s)
    ensures Inv(maxResends, Run(Exact, maxResends, s, es))
  {
    hide Inv, Step;
    if es == [] {
    } else {
      RunKeeps(maxResends, s, es[..|es| - 1]);
      StepKeeps(maxResends, Run(Exact, maxResends, s, es[..|es| - 1]), es[|es| - 1]);
    }
  }

  ghost predicate Reachable(maxResends: nat, s: State) {
    exists sent, es :: s == Run(Exact, maxResends, Start(sent), es)
  }

  lemma ReachableKeeps(maxResends: nat, s: State)
    requires maxResends > 0 && Reachable(maxResends, s)
    ensures Inv(maxResends, s)
  {
    var sent, es :| s == Run(Exact, maxResends, Start(sent), es);
    RunKeeps(maxResends, Start(sent), es);
  }

  /** Ordered reliable delivery. */
  lemma OrderedDelivery(maxResends: nat, s: State)
    requires maxResends > 0 && Reachable(maxResends, s)
    ensures InOrder(s.log, s.base, s.member.reliable, s.delivered)
  {
    ReachableKeeps(maxResends, s);
  }

  // ----- Unreliable wrappers -----

  /** Which wrappers a member passes on: a reliable one if it is the next, an
      unreliable one if it is newer than the last one taken and no more reliable
      wrappers are missing before it than the leader keeps. */
  predicate Takes(maxResends: nat, m: Position, w: Wrapper) {
    && w.total > m.total
    && if w.isReliable then w.reliable == m.reliable + 1 else w.reliable <= m.reliable + maxResends
  }

  lemma HandsOnExactly(maxResends: nat, s: State, i: nat)
    requires maxResends > 0 && Reachable(maxResends, s) && s.joined && i < |s.log|
    ensures HandsOn(Exact, s, Receive(i)) <==> Takes(maxResends, s.member, s.log[i])
  {
    ReachableKeeps(maxResends, s);
    JudgeOnLog(maxResends, s.log, s.member, i);
  }

  /** An unreliable wrapper passes again, if it comes again, exactly while reliable
      ones are missing before it; the member's numbers stay as they are then. */
  lemma UnreliableTwice(maxResends: nat, s: State, i: nat)
    requires maxResends > 0 && Reachable(maxResends, s) && s.joined && i < |s.log|
    requires !s.log[i].isReliable && HandsOn(Exact, s, Receive(i))
    ensures var t := Step(Exact, maxResends, s, Receive(i));
            && (HandsOn(Exact, t, Receive(i)) <==> s.member.reliable < s.log[i].reliable)
            && t.member == if s.member.reliable < s.log[i].reliable then s.member.(oldest := s.log[i].oldest)
                           else Position(s.log[i].total, s.log[i].reliable, s.log[i].oldest)
  {
    ReachableKeeps(maxResends, s);
    JudgeOnLog(maxResends, s.log, s.member, i);
    StepKeeps(maxResends, s, Receive(i));
    JudgeOnLog(maxResends, s.log, Step(Exact, maxResends, s, Receive(i)).member, i);
  }

  /** The member after a wrapper: its numbers follow a wrapper that leaves no gap,
      and the oldest number available follows every wrapper. */
  lemma FollowsExactly(maxResends: nat, s: State, i: nat)
    requires maxResends > 0 && Reachable(maxResends, s) && s.joined && i < |s.log|
    ensures var w, m := s.log[i], s.member;
            Step(Exact, maxResends, s, Receive(i)).member ==
            if w.total > m.total && w.reliable == m.reliable + (if w.isReliable then 1 else 0)
            then Position(w.total, w.reliable, w.oldest) else m.(oldest := w.oldest)
  {
    ReachableKeeps(maxResends, s);
    JudgeOnLog(maxResends, s.log, s.member, i);
  }

  /** The log indices of the unreliable wrappers passed on over a run. */
  function Unreliable(ar: Arith, maxResends: nat, sent: bool, es: seq<Event>): seq<nat> {
    if es == [] then []
    else
      var init, e := es[..|es| - 1], es[|es| - 1];
      var s := Run(ar, maxResends, Start(sent), init);
      Unreliable(ar, maxResends, sent, init) + if HandsOn(ar, s, e) && !s.log[e.index].isReliable then [e.index] else []
  }

  /** At its `k`-th event the run hands over the unreliable wrapper `i`, newer than
      the last one taken and not too far ahead. */
  predicate ComesInTime(maxResends: nat, sent: bool, es: seq<Event>, k: nat, i: nat) {
    && k < |es| && es[k] == Receive(i)
    && var s := Run(Exact, maxResends, Start(sent), es[..k]);
       s.joined && i < |s.log| && !s.log[i].isReliable && Takes(maxResends, s.member, s.log[i])
  }

  /** Over every run exactly those unreliable wrappers are passed on. */
  lemma {:induction false} UnreliableExactly(maxResends: nat, sent: bool, es: seq<Event>, i: nat)
    requires maxResends > 0
    ensures i in Unreliable(Exact, maxResends, sent, es) <==> exists k: nat :: ComesInTime(maxResends, sent, es, k, i)
  {
    if es == [] {
    } else {
      var n := |es| - 1;
      var init := es[..n];
      UnreliableExactly(maxResends, sent, init, i);
      LastInTime(maxResends, sent, es, i);
      forall k: nat | k < n
        ensures ComesInTime(maxResends, sent, es, k, i) <==> ComesInTime(maxResends, sent, init, k, i)
      {
        assert es[..k] == init[..k];
      }
      if i in Unreliable(Exact, maxResends, sent, init) {
        var k: nat :| ComesInTime(maxResends, sent, init, k, i);
        assert ComesInTime(maxResends, sent, es, k, i);
      }
    }
  }

  lemma LastInTime(maxResends: nat, sent: bool, es: seq<Event>, i: nat)
    requires maxResends > 0 && es != []
    ensures var init := es[..|es| - 1];
            i in Unreliable(Exact, maxResends, sent, es) <==>
            i in Unreliable(Exact, maxResends, sent, init) || ComesInTime(maxResends, sent, es, |es| - 1, i)
  {
    var s, e := Run(Exact, maxResends, Start(sent), es[..|es| - 1]), es[|es| - 1];
    assert Reachable(maxResends, s);
    if e.Receive? && s.joined && e.index < |s.log| {
      HandsOnExactly(maxResends, s, e.index);
    }
  }

  // ----- Delivery across a JOIN -----

  /** No JOIN is taken. */
  ghost predicate Undisturbed(es: seq<Event>) {
    forall e :: e in es ==> !e.TakeJoin?
  }

  lemma {:induction false} UndisturbedKeeps(maxResends: nat, s: State, es: seq<Event>)
    requires Undisturbed(es)
    ensures var r := Run(Exact, maxResends, s, es);
            r.base == s.base && s.log <= r.log && (s.joined ==> r.joined)
  {
    if es == [] {
    } else {
      UndisturbedKeeps(maxResends, s, es[..|es| - 1]);
      assert es[|es| - 1] in es;
    }
  }

  /** The run after the `j`-th JOIN was taken once more. */
  function AfterJoin(maxResends: nat, s: State, j: nat, es: seq<Event>): State {
    Run(Exact, maxResends, Step(Exact, maxResends, s, TakeJoin(j)), es)
  }

  lemma AfterJoinKeeps(maxResends: nat, s: State, j: nat, es: seq<Event>)
    requires maxResends > 0 && Inv(maxResends, s) && j < |s.joins| && Undisturbed(es)
    ensures var r := AfterJoin(maxResends, s, j, es);
            Inv(maxResends, r) && r.base == s.joins[j].reliable && s.log <= r.log
  {
    hide Inv, Run;
    StepKeeps(maxResends, s, TakeJoin(j));
    RunKeeps(maxResends, Step(Exact, maxResends, s, TakeJoin(j)), es);
    UndisturbedKeeps(maxResends, Step(Exact, maxResends, s, TakeJoin(j)), es);
  }

  lemma DeliveredNumbers(log: seq<Wrapper>, base: int, upto: int, delivered: seq<nat>, i: nat)
    requires InOrder(log, base, upto, delivered) && i in delivered
    ensures i < |log| && log[i].isReliable && base < log[i].reliable <= upto
  {
    var k :| 0 <= k < |delivered| && delivered[k] == i;
    assert Delivers(log, base, delivered, k);
  }

  lemma RunOneMore(maxResends: nat, s: State, es: seq<Event>, e: Event)
    ensures Run(Exact, maxResends, s, es + [e]) == Step(Exact, maxResends, Run(Exact, maxResends, s, es), e)
  {
    assert (es + [e])[..|es + [e]| - 1] == es;
  }

  /** The next reliable wrapper can be handed over at any time. */
  lemma CatchUpByOne(maxResends: nat, s: State) returns (i: nat)
    requires maxResends > 0 && Inv(maxResends, s) && s.joined && s.member.reliable < ReliableAt(s.log, |s.log|)
    ensures var r := Step(Exact, maxResends, s, Receive(i));
            r.joined && r.log == s.log && r.member.reliable == s.member.reliable + 1 && Inv(maxResends, r)
  {
    hide LogOk, InOrder, Window;
    LogRises(maxResends, s.log, 0, s.member.total);
    i := ReliableExists(maxResends, s.log, s.member.reliable + 1);
    NextIsValid(maxResends, s.log, s.member, i);
    StepKeeps(maxResends, s, Receive(i));
  }

  /** From every state of a joined member the network can bring it up to any
      number the leader has sent. */
  lemma {:induction false} CatchUp(maxResends: nat, s: State, upto: int) returns (es: seq<Event>)
    requires maxResends > 0 && Inv(maxResends, s) && s.joined
    requires s.member.reliable <= upto <= ReliableAt(s.log, |s.log|)
    ensures Undisturbed(es)
    ensures var r := Run(Exact, maxResends, s, es);
            r.joined && r.log == s.log && r.member.reliable == upto && Inv(maxResends, r)
    decreases upto - s.member.reliable
  {
    hide Inv, Step;
    if upto == s.member.reliable {
      es := [];
    } else {
      var init := CatchUp(maxResends, s, upto - 1);
      var r := Run(Exact, maxResends, s, init);
      var i := CatchUpByOne(maxResends, r);
      es := init + [Receive(i)];
      RunOneMore(maxResends, s, init, Receive(i));
    }
  }

  /** The log indices of all reliable wrappers passed on over a run, across all
      its JOINs. */
  function Ever(maxResends: nat, sent: bool, es: seq<Event>): seq<nat> {
    if es == [] then []
    else
      var init, e := es[..|es| - 1], es[|es| - 1];
      Ever(maxResends, sent, init)
      + if PassesOn(Exact, Run(Exact, maxResends, Start(sent), init), e) then [e.index] else []
  }

  lemma {:induction false} EverLogged(maxResends: nat, sent: bool, es: seq<Event>, i: nat)
    requires i in Ever(maxResends, sent, es)
    ensures var log := Run(Exact, maxResends, Start(sent), es).log; i < |log| && log[i].isReliable
  {
    if es == [] {
    } else if i in Ever(maxResends, sent, es[..|es| - 1]) {
      EverLogged(maxResends, sent, es[..|es| - 1], i);
    }
  }

  /** A wrapper with a reliable number above `n` was passed on in the run. */
  ghost predicate PassedAbove(maxResends: nat, sent: bool, es: seq<Event>, n: int) {
    var log := Run(Exact, maxResends, Start(sent), es).log;
    exists i :: i in Ever(maxResends, sent, es) && i < |log| && log[i].reliable > n
  }

  /** After the `j`-th JOIN is taken once more, a wrapper that was passed on at any
      time in the run can pass the gate again before the next JOIN. */
  ghost predicate Repeats(maxResends: nat, sent: bool, es: seq<Event>, j: nat) {
    exists fs, i :: Undisturbed(fs) && i in Ever(maxResends, sent, es)
                    && i in AfterJoin(maxResends, Run(Exact, maxResends, Start(sent), es), j, fs).delivered
  }

  /** Taking a JOIN lets a wrapper pass twice exactly if it announces less than the
      highest reliable number ever passed on. */
  lemma LateJoinRepeats(maxResends: nat, sent: bool, es: seq<Event>, j: nat)
    requires maxResends > 0 && j < |Run(Exact, maxResends, Start(sent), es).joins|
    ensures Repeats(maxResends, sent, es, j) <==>
            PassedAbove(maxResends, sent, es, Run(Exact, maxResends, Start(sent), es).joins[j].reliable)
  {
    hide Inv, Run, InOrder, AfterJoin;
    var s := Run(Exact, maxResends, Start(sent), es);
    StartKeeps(maxResends, sent);
    RunKeeps(maxResends, Start(sent), es);
    if Repeats(maxResends, sent, es, j) {
      var fs, i :| Undisturbed(fs) && i in Ever(maxResends, sent, es) && i in AfterJoin(maxResends, s, j, fs).delivered;
      EverLogged(maxResends, sent, es, i);
      AfterJoinPasses(maxResends, s, j, fs, i);
    }
    if PassedAbove(maxResends, sent, es, s.joins[j].reliable) {
      var i :| i in Ever(maxResends, sent, es) && i < |s.log| && s.log[i].reliable > s.joins[j].reliable;
      EverLogged(maxResends, sent, es, i);
      var fs := PassesAgain(maxResends, s, j, i);
    }
  }

  lemma StartKeeps(maxResends: nat, sent: bool)
    requires maxResends > 0
    ensures Inv(maxResends, Start(sent))
  {
  }

  lemma AfterJoinPasses(maxResends: nat, s: State, j: nat, es: seq<Event>, i: nat)
    requires maxResends > 0 && Inv(maxResends, s) && j < |s.joins| && Undisturbed(es)
    requires i < |s.log| && i in AfterJoin(maxResends, s, j, es).delivered
    ensures s.joins[j].reliable < s.log[i].reliable
  {
    hide LogOk, Run;
    AfterJoinKeeps(maxResends, s, j, es);
    var r := AfterJoin(maxResends, s, j, es);
    DeliveredNumbers(r.log, r.base, r.member.reliable, r.delivered, i);
  }

  /** Any wrapper above the number announced can pass after the JOIN. */
  lemma PassesAgain(maxResends: nat, s: State, j: nat, i: nat) returns (es: seq<Event>)
    requires maxResends > 0 && Inv(maxResends, s) && j < |s.joins|
    requires i < |s.log| && s.log[i].isReliable && s.joins[j].reliable < s.log[i].reliable
    ensures Undisturbed(es) && i in AfterJoin(maxResends, s, j, es).delivered
  {
    hide LogOk, Run, Window;
    StepKeeps(maxResends, s, TakeJoin(j));
    LogRises(maxResends, s.log, i + 1, |s.log|);
    es := CatchUp(maxResends, Step(Exact, maxResends, s, TakeJoin(j)), s.log[i].reliable);
    AfterJoinKeeps(maxResends, s, j, es);
    var r := AfterJoin(maxResends, s, j, es);
    var l := |r.delivered| - 1;
    assert Delivers(r.log, r.base, r.delivered, l);
    ReliableUnique(maxResends, s.log, i, r.delivered[l]);
    assert r.delivered[l] in r.delivered;
  }

  /** It happens with a JOIN older than the last one taken, before which the
      wrapper had been passed on. */
  lemma LateJoinHappens(maxResends: nat, sent: bool) returns (es: seq<Event>)
    requires maxResends > 0
    ensures var s := Run(Exact, maxResends, Start(sent), es);
            s.delivered == [] && |s.joins| > 0 && Repeats(maxResends, sent, es, 0)
  {
    hide Run, Ever, Repeats;
    Begins(maxResends, sent);
    var s := Start(sent);
    es := [];
    es, s := Continues(maxResends, sent, es, s, OfferJoin);
    es, s := Continues(maxResends, sent, es, s, TakeJoin(0));
    es, s := Continues(maxResends, sent, es, s, Send(true));
    es, s := Continues(maxResends, sent, es, s, Receive(0));
    assert Ever(maxResends, sent, es)[|Ever(maxResends, sent, es)| - 1] == 0;
    es, s := Continues(maxResends, sent, es, s, OfferJoin);
    es, s := Continues(maxResends, sent, es, s, TakeJoin(1));
    assert 0 in Ever(maxResends, sent, es) && s.log[0].reliable > s.joins[0].reliable;
    LateJoinRepeats(maxResends, sent, es, 0);
  }

  lemma Begins(maxResends: nat, sent: bool)
    ensures Run(Exact, maxResends, Start(sent), []) == Start(sent) && Ever(maxResends, sent, []) == []
  {
  }

  lemma Continues(maxResends: nat, sent: bool, es: seq<Event>, s: State, e: Event) returns (fs: seq<Event>, t: State)
    requires s == Run(Exact, maxResends, Start(sent), es)
    ensures fs == es + [e] && t == Run(Exact, maxResends, Start(sent), fs) == Step(Exact, maxResends, s, e)
    ensures Ever(maxResends, sent, fs) == Ever(maxResends, sent, es) + if PassesOn(Exact, s, e) then [e.index] else []
  {
    fs := es + [e];
    assert fs[..|fs| - 1] == es;
    t := Step(Exact, maxResends, s, e);
  }

  /** No JOIN of the run was late. */
  ghost predicate OnTime(maxResends: nat, sent: bool, es: seq<Event>) {
    es == [] ||
    var init, e := es[..|es| - 1], es[|es| - 1];
    var s := Run(Exact, maxResends, Start(sent), init);
    && OnTime(maxResends, sent, init)
    && (e.TakeJoin? && e.join < |s.joins| ==> !PassedAbove(maxResends, sent, init, s.joins[e.join].reliable))
  }

  ghost predicate Rising(log: seq<Wrapper>, passed: seq<nat>, upto: int) {
    && (forall k :: 0 <= k < |passed| ==> passed[k] < |log| && log[passed[k]].reliable <= upto)
    && forall k, l :: 0 <= k < l < |passed| ==>
      passed[k] < |log| && passed[l] < |log| && log[passed[k]].reliable < log[passed[l]].reliable
  }

  /** Over a whole run without a late JOIN the wrappers passed on have rising
      reliable numbers, so none of them passes twice. */
  lemma {:induction false} OnceEach(maxResends: nat, sent: bool, es: seq<Event>)
    requires maxResends > 0 && OnTime(maxResends, sent, es)
    ensures var s := Run(Exact, maxResends, Start(sent), es);
            Rising(s.log, Ever(maxResends, sent, es), s.member.reliable)
  {
    if es == [] {
    } else {
      var init, e := es[..|es| - 1], es[|es| - 1];
      OnceEach(maxResends, sent, init);
      StartKeeps(maxResends, sent);
      RunKeeps(maxResends, Start(sent), init);
      RisingStep(maxResends, Run(Exact, maxResends, Start(sent), init), Ever(maxResends, sent, init), e);
    }
  }

  lemma RisingStep(maxResends: nat, s: State, passed: seq<nat>, e: Event)
    requires maxResends > 0 && Inv(maxResends, s) && Rising(s.log, passed, s.member.reliable)
    requires e.TakeJoin? && e.join < |s.joins| ==>
               forall i :: i in passed && i < |s.log| ==> s.log[i].reliable <= s.joins[e.join].reliable
    ensures var t := Step(Exact, maxResends, s, e);
            Rising(t.log, passed + if PassesOn(Exact, s, e) then [e.index] else [], t.member.reliable)
  {
    hide LogOk, InOrder, Window;
    if e.Receive? && s.joined && e.index < |s.log| {
      JudgeOnLog(maxResends, s.log, s.member, e.index);
    }
  }

  /** What is passed on before and after a JOIN joins up to one series without
      gap or repetition, whatever happens until the next JOIN, exactly if the
      JOIN announces the number the member has reached. */
  lemma JoinsUp(maxResends: nat, s: State, j: nat, es: seq<Event>)
    requires maxResends > 0 && Reachable(maxResends, s) && j < |s.joins| && Undisturbed(es)
    ensures var r := AfterJoin(maxResends, s, j, es);
            InOrder(r.log, s.base, r.member.reliable, s.delivered + r.delivered) <==>
            s.joins[j].reliable == s.member.reliable
  {
    ReachableKeeps(maxResends, s);
    AfterJoinKeeps(maxResends, s, j, es);
    var r := AfterJoin(maxResends, s, j, es);
    if s.joins[j].reliable == s.member.reliable {
      InOrderAppend(s.log, r.log, s.base, s.member.reliable, r.member.reliable, s.delivered, r.delivered);
    }
  }

  lemma InOrderAppend(log: seq<Wrapper>, later: seq<Wrapper>, base: int, mid: int, upto: int, xs: seq<nat>,
      ys: seq<nat>)
    requires log <= later && InOrder(log, base, mid, xs) && InOrder(later, mid, upto, ys)
    ensures InOrder(later, base, upto, xs + ys)
  {
    forall k | 0 <= k < |xs + ys| ensures Delivers(later, base, xs + ys, k) {
      if k < |xs| {
        assert Delivers(log, base, xs, k);
      } else {
        assert Delivers(later, mid, ys, k - |xs|);
      }
    }
  }

  // ----- Loss and repair -----

  /** SEQ_LOST means exactly that more wrappers are missing than the leader keeps. */
  lemma LostExactly(maxResends: nat, s: State, i: nat)
    requires maxResends > 0 && Reachable(maxResends, s)
    requires i < |s.log| && s.log[i].total > s.member.total
    ensures Judge(Exact, s.member, s.log[i]) == Lost <==> s.log[i].reliable - s.member.reliable > maxResends
  {
    ReachableKeeps(maxResends, s);
    JudgeOnLog(maxResends, s.log, s.member, i);
  }

  /** On SEQ_NAK the member asks for the range `reliable+1 .. w.reliable`. It is
      not empty, lies inside the window the wrapper advertised, and holds no
      more wrappers than the leader keeps. */
  lemma NakRange(maxResends: nat, s: State, i: nat)
    requires maxResends > 0 && Reachable(maxResends, s)
    requires i < |s.log| && Judge(Exact, s.member, s.log[i]) == Nak
    ensures s.log[i].oldest <= s.member.reliable + 1 <= s.log[i].reliable
    ensures s.log[i].reliable - s.member.reliable <= maxResends
  {
    ReachableKeeps(maxResends, s);
    JudgeOnLog(maxResends, s.log, s.member, i);
  }

  /** The process had sent a reliable wrapper on another channel before this
      channel sent its first. */
  predicate OthersFirst(sent: bool, es: seq<Event>) {
    if es == [] then sent
    else OthersFirst(sent, es[..|es| - 1]) || (es[|es| - 1].OtherChannelSends? && Send(true) !in es[..|es| - 1])
  }

  /** The oldest number advertised together with `reliable`. */
  predicate StartsAtZero(maxResends: nat, others: bool, reliable: int, oldest: int) {
    oldest == 0 <==> reliable == 0 || (others && reliable < maxResends)
  }

  ghost predicate AllStart(maxResends: nat, others: bool, log: seq<Wrapper>) {
    forall i :: 0 <= i < |log| ==> StartsAtZero(maxResends, others, log[i].reliable, log[i].oldest)
  }

  /** What the shared flag and the windows say about the history: `others` first
      used the flag, and this channel is `quiet` so far. */
  ghost predicate FlagTells(maxResends: nat, others: bool, quiet: bool, s: State) {
    && (s.leader.reliable == 0 <==> quiet)
    && (s.sent <==> others || !quiet)
    && StartsAtZero(maxResends, others, s.leader.reliable, s.leader.oldest)
    && AllStart(maxResends, others, s.log)
  }

  lemma FlagStep(maxResends: nat, others: bool, quiet: bool, s: State, e: Event)
    requires maxResends > 0 && Inv(maxResends, s) && FlagTells(maxResends, others, quiet, s)
    ensures FlagTells(maxResends, others || (e.OtherChannelSends? && quiet), quiet && e != Send(true),
                      Step(Exact, maxResends, s, e))
  {
    hide LogOk;
    LogRises(maxResends, s.log, 0, |s.log|);
    match e {
      case Send(isReliable) =>
      case OtherChannelSends =>
        if quiet {
          QuietLog(maxResends, s);
        }
      case _ =>
    }
  }

  lemma FlagAtStart(maxResends: nat, sent: bool)
    requires maxResends > 0
    ensures FlagTells(maxResends, sent, true, Start(sent))
  {
  }

  lemma {:induction false} FlagTellsHistory(maxResends: nat, sent: bool, es: seq<Event>)
    requires maxResends > 0
    ensures FlagTells(maxResends, OthersFirst(sent, es), Send(true) !in es, Run(Exact, maxResends, Start(sent), es))
  {
    hide Inv, Step, FlagTells;
    if es == [] {
      FlagAtStart(maxResends, sent);
    } else {
      StartKeeps(maxResends, sent);
      var init, e := es[..|es| - 1], es[|es| - 1];
      assert es == init + [e];
      FlagTellsHistory(maxResends, sent, init);
      RunKeeps(maxResends, Start(sent), init);
      FlagStep(maxResends, OthersFirst(sent, init), Send(true) !in init, Run(Exact, maxResends, Start(sent), init), e);
    }
  }

  lemma QuietLog(maxResends: nat, s: State)
    requires Inv(maxResends, s) && s.leader.reliable == 0
    ensures forall i :: 0 <= i < |s.log| ==> s.log[i].reliable == 0
  {
    hide LogOk;
    forall i | 0 <= i < |s.log| ensures s.log[i].reliable == 0 {
      LogRises(maxResends, s.log, i + 1, |s.log|);
    }
  }

  /** A member may trust the window a wrapper advertises, that every number in
      it was sent reliably, exactly when the window does not start at 0. After a
      reliable wrapper it starts at 0 only in a channel that was not the first of
      its process to send one, and there for its first wrappers: all channels
      share one flag. */
  lemma WindowAllSent(maxResends: nat, sent: bool, es: seq<Event>, i: nat)
    requires maxResends > 0 && i < |Run(Exact, maxResends, Start(sent), es).log|
    ensures var log := Run(Exact, maxResends, Start(sent), es).log;
            && ((forall n | log[i].oldest <= n <= log[i].reliable :: Sent(log, n)) <==> log[i].oldest > 0)
            && (log[i].oldest > 0 <==>
                log[i].reliable > 0 && (OthersFirst(sent, es) ==> maxResends <= log[i].reliable))
  {
    RunKeeps(maxResends, Start(sent), es);
    FlagTellsHistory(maxResends, sent, es);
    var s := Run(Exact, maxResends, Start(sent), es);
    OnLogEntry(maxResends, s.log, i);
    EntryWindow(maxResends, s.log, i);
  }

  /** A channel that comes second advertises number 0 with its first reliable
      wrapper. */
  lemma ZeroAdvertised(maxResends: nat)
    requires maxResends > 1
    ensures Run(Exact, maxResends, Start(false), [OtherChannelSends, Send(true)]).log == [Wrapper(true, 1, 1, 0)]
  {
    assert [OtherChannelSends] == [] + [OtherChannelSends];
    assert [OtherChannelSends, Send(true)] == [OtherChannelSends] + [Send(true)];
    RunOneMore(maxResends, Start(false), [], OtherChannelSends);
    RunOneMore(maxResends, Start(false), [OtherChannelSends], Send(true));
  }

  lemma EntryWindow(maxResends: nat, log: seq<Wrapper>, i: nat)
    requires maxResends > 0 && LogOk(maxResends, log) && i < |log|
    ensures (forall n | log[i].oldest <= n <= log[i].reliable :: Sent(log, n)) <==> log[i].oldest > 0
  {
    hide LogOk;
    OnLogEntry(maxResends, log, i);
    LogRises(maxResends, log, i + 1, |log|);
    if log[i].oldest > 0 {
      forall n | log[i].oldest <= n <= log[i].reliable ensures Sent(log, n) {
        var j := ReliableExists(maxResends, log, n);
      }
    } else {
      forall j | 0 <= j < |log| && log[j].isReliable ensures log[j].reliable > 0 {
        LogRises(maxResends, log, 0, j + 1);
      }
      assert log[i].oldest <= 0 <= log[i].reliable && !Sent(log, 0);
    }
  }

  predicate Sent(log: seq<Wrapper>, n: int) {
    exists j :: 0 <= j < |log| && log[j].isReliable && log[j].reliable == n
  }

  /** The gate applied to a series of wrappers. */
  function Replay(ar: Arith, p: Position, ws: seq<Wrapper>): (Position, seq<Verdict>) {
    if ws == [] then (p, [])
    else
      var (p', vs) := Replay(ar, p, ws[..|ws| - 1]);
      (Advance(ar, p', ws[|ws| - 1]), vs + [Judge(ar, p', ws[|ws| - 1])])
  }

  lemma NextIsValid(maxResends: nat, log: seq<Wrapper>, p: Position, i: nat)
    requires maxResends > 0 && LogOk(maxResends, log) && OnLog(log, p.total, p.reliable)
    requires i < |log| && log[i].isReliable && log[i].reliable == p.reliable + 1
    ensures Judge(Exact, p, log[i]) == Valid
    ensures OnLog(log, log[i].total, log[i].reliable)
  {
    hide LogOk;
    OnLogEntry(maxResends, log, i);
    JudgeOnLog(maxResends, log, p, i);
    if i + 1 <= p.total {
      LogRises(maxResends, log, i + 1, p.total);
    }
  }

  ghost predicate AllValid(vs: seq<Verdict>) {
    forall k :: 0 <= k < |vs| ==> vs[k] == Valid
  }

  /** Redelivering the missing range in order closes the gap, one valid wrapper
      after another. */
  lemma {:induction false} RepairCloses(maxResends: nat, log: seq<Wrapper>, m: Position, ws: seq<Wrapper>)
    requires maxResends > 0 && LogOk(maxResends, log) && OnLog(log, m.total, m.reliable)
    requires forall k :: 0 <= k < |ws| ==> ws[k] in log && ws[k].isReliable && ws[k].reliable == m.reliable + k + 1
    ensures var (p, vs) := Replay(Exact, m, ws);
            && |vs| == |ws| && AllValid(vs)
            && p.reliable == m.reliable + |ws| && OnLog(log, p.total, p.reliable)
  {
    if ws == [] {
    } else {
      var init, w := ws[..|ws| - 1], ws[|ws| - 1];
      RepairCloses(maxResends, log, m, init);
      var (p, vs) := Replay(Exact, m, init);
      var i :| 0 <= i < |log| && log[i] == w;
      NextIsValid(maxResends, log, p, i);
    }
  }

  /** The wrappers of the leader with the next `n` reliable numbers. */
  lemma {:induction false} RangeExists(maxResends: nat, log: seq<Wrapper>, from: int, n: nat) returns (ws: seq<Wrapper>)
    requires LogOk(maxResends, log) && 0 <= from && from + n <= ReliableAt(log, |log|)
    ensures |ws| == n
    ensures forall k :: 0 <= k < n ==> ws[k] in log && ws[k].isReliable && ws[k].reliable == from + k + 1
  {
    ws := [];
    while |ws| < n
      invariant |ws| <= n
      invariant forall k :: 0 <= k < |ws| ==> ws[k] in log && ws[k].isReliable && ws[k].reliable == from + k + 1
    {
      var next := ReliableExists(maxResends, log, from + |ws| + 1);
      ws := ws + [log[next]];
    }
  }

  /** A SEQ_NAK can always be answered: the leader's log holds the requested
      range, and replaying it closes the gap, leaving the wrapper that revealed
      it next in line or already taken. */
  lemma NakIsRepaired(maxResends: nat, s: State, i: nat) returns (ws: seq<Wrapper>)
    requires maxResends > 0 && Reachable(maxResends, s)
    requires i < |s.log| && Judge(Exact, s.member, s.log[i]) == Nak
    ensures |ws| <= maxResends && Repairs(s.log, s.member, s.log[i], ws)
  {
    ReachableKeeps(maxResends, s);
    NakRange(maxResends, s, i);
    ws := GapIsRepaired(maxResends, s.log, s.member, i);
  }

  /** `ws` are logged wrappers with the reliable numbers missing up to `w`, and
      the gate takes them all in order and then has no gap before `w`. */
  ghost predicate Repairs(log: seq<Wrapper>, m: Position, w: Wrapper, ws: seq<Wrapper>) {
    && m.reliable + |ws| == w.reliable
    && (forall k :: 0 <= k < |ws| ==> ws[k] in log && ws[k].isReliable && ws[k].reliable == m.reliable + k + 1)
    && var (p, vs) := Replay(Exact, m, ws);
       AllValid(vs) && p.reliable == w.reliable && Judge(Exact, p, w) in {Valid, Duplicate}
  }

  lemma GapIsRepaired(maxResends: nat, log: seq<Wrapper>, m: Position, i: nat) returns (ws: seq<Wrapper>)
    requires maxResends > 0 && LogOk(maxResends, log) && OnLog(log, m.total, m.reliable)
    requires i < |log| && m.reliable <= log[i].reliable
    ensures Repairs(log, m, log[i], ws)
  {
    hide LogOk, Judge, Advance, Replay;
    OnLogEntry(maxResends, log, i);
    LogRises(maxResends, log, i + 1, |log|);
    LogRises(maxResends, log, 0, m.total);
    ws := RangeExists(maxResends, log, m.reliable, log[i].reliable - m.reliable);
    RepairCloses(maxResends, log, m, ws);
    var (p, vs) := Replay(Exact, m, ws);
    CaughtUp(maxResends, log, p, i);
  }

  lemma CaughtUp(maxResends: nat, log: seq<Wrapper>, p: Position, i: nat)
    requires maxResends > 0 && LogOk(maxResends, log) && OnLog(log, p.total, p.reliable)
    requires i < |log| && p.reliable == log[i].reliable
    ensures Judge(Exact, p, log[i]) in {Valid, Duplicate}
  {
    JudgeOnLog(maxResends, log, p, i);
    assert EntryOk(maxResends, log, i);
    if log[i].isReliable && i + 1 > p.total {
      LogRises(maxResends, log, p.total, i + 1);
    }
  }

  // ----- 32-bit counters -----

  function Wrapped(p: Position): Position {
    Position(Wrap(p.total), Wrap(p.reliable), Wrap(p.oldest))
  }

  function WrappedHeader(w: Wrapper): Wrapper {
    Wrapper(w.isReliable, Wrap(w.total), Wrap(w.reliable), Wrap(w.oldest))
  }

  function WrappedState(s: State): State {
    State(Wrapped(s.leader), s.sent,
          seq(|s.log|, i requires 0 <= i < |s.log| => WrappedHeader(s.log[i])),
          seq(|s.joins|, j requires 0 <= j < |s.joins| => Join(Wrap(s.joins[j].total), Wrap(s.joins[j].reliable))),
          s.joined, Wrapped(s.member), Wrap(s.base), s.delivered)
  }

  /** The wrapper is less than half the number circle from the member. */
  predicate Near(m: Position, w: Wrapper) {
    -TWO31 <= w.total - m.total < TWO31
  }

  predicate NearEvent(s: State, e: Event) {
    e.Receive? && s.joined && e.index < |s.log| ==> Near(s.member, s.log[e.index])
  }

  predicate NearRun(maxResends: nat, s: State, es: seq<Event>) {
    es != [] ==>
      && NearRun(maxResends, s, es[..|es| - 1])
      && NearEvent(Run(Exact, maxResends, s, es[..|es| - 1]), es[|es| - 1])
  }

  lemma StampRefines(maxResends: nat, p: Position, sent: bool, isReliable: bool)
    requires 0 < maxResends < TWO31 && Window(maxResends, p.reliable, p.oldest)
    ensures Stamp(Mod32, maxResends, Wrapped(p), sent, isReliable) ==
            Wrapped(Stamp(Exact, maxResends, p, sent, isReliable))
  {
    WrapStep(p.total, 1);
    WrapStep(p.reliable, 1);
    WrapMinus(p.reliable + 1, p.oldest);
    WrapStep(p.reliable + 1, 1 - maxResends);
    WrapSmall(p.reliable + 1 - p.oldest);
    assert 0 <= p.reliable + 1 - p.oldest <= maxResends;
    hide Wrap;
  }

  /** For a wrapper off the leader's log the 32-bit gate agrees with the
      unbounded one exactly while the wrapper is near the member. */
  lemma GateRefines(maxResends: nat, log: seq<Wrapper>, m: Position, i: nat)
    requires 0 < maxResends < TWO31 && LogOk(maxResends, log) && i < |log| && OnLog(log, m.total, m.reliable)
    requires -TWO32 < log[i].total - m.total < TWO32
    ensures Judge(Mod32, Wrapped(m), WrappedHeader(log[i])) == Judge(Exact, m, log[i]) <==> Near(m, log[i])
    ensures Near(m, log[i]) ==>
              Advance(Mod32, Wrapped(m), WrappedHeader(log[i])) == Wrapped(Advance(Exact, m, log[i]))
  {
    hide Wrap, SignedDiff, LogOk;
    var w := log[i];
    OnLogEntry(maxResends, log, i);
    SignedDiffExact(w.total, m.total);
    SignedDiffFar(w.total, m.total);
    if Near(m, w) && w.total > m.total {
      LogRises(maxResends, log, m.total, i + 1);
      LogRises(maxResends, log, 0, m.total);
      SignedDiffExact(w.reliable, m.reliable);
      SignedDiffExact(w.oldest, m.reliable);
    }
  }

  lemma StepRefines(maxResends: nat, s: State, e: Event)
    requires 0 < maxResends < TWO31 && Inv(maxResends, s) && NearEvent(s, e)
    ensures Step(Mod32, maxResends, WrappedState(s), e) == WrappedState(Step(Exact, maxResends, s, e))
  {
    match e {
      case Send(isReliable) =>
        StampRefines(maxResends, s.leader, s.sent, isReliable);
      case Receive(i) =>
        if s.joined && i < |s.log| {
          GateRefines(maxResends, s.log, s.member, i);
        }
      case _ =>
    }
  }

  /** 32-bit refinement over whole runs. */
  lemma {:induction false} RunRefines(maxResends: nat, sent: bool, es: seq<Event>)
    requires 0 < maxResends < TWO31 && NearRun(maxResends, Start(sent), es)
    ensures Run(Mod32, maxResends, Start(sent), es) == WrappedState(Run(Exact, maxResends, Start(sent), es))
  {
    if es == [] {
      assert WrappedState(Start(sent)) == Start(sent);
    } else {
      RunRefines(maxResends, sent, es[..|es| - 1]);
      RunKeeps(maxResends, Start(sent), es[..|es| - 1]);
      StepRefines(maxResends, Run(Exact, maxResends, Start(sent), es[..|es| - 1]), es[|es| - 1]);
    }
  }

  lemma DeliveredWrapped(x: State)
    requires InOrder(x.log, x.base, x.member.reliable, x.delivered)
    ensures var s := WrappedState(x);
            && s.delivered == x.delivered
            && s.member.reliable == Wrap(s.base + |s.delivered|)
            && forall k :: 0 <= k < |s.delivered| ==> InOrderAt32(s, k)
  {
    var s := WrappedState(x);
    WrapStep(x.base, |s.delivered|);
    hide Wrap;
    forall k | 0 <= k < |s.delivered| ensures InOrderAt32(s, k) {
      assert Delivers(x.log, x.base, x.delivered, k);
      WrapStep(x.base, k + 1);
    }
  }

  predicate InOrderAt32(s: State, k: int)
    requires 0 <= k < |s.delivered|
  {
    var i := s.delivered[k];
    i < |s.log| && s.log[i].isReliable && s.log[i].reliable == Wrap(s.base + k + 1)
  }

  /** Ordered reliable delivery with the counters of the C code: the wrappers
      passed on carry consecutive 32-bit reliable numbers from the JOIN's to the
      member's, and are the same log entries as with unbounded counters. */
  lemma OrderedDelivery32(maxResends: nat, sent: bool, es: seq<Event>)
    requires 0 < maxResends < TWO31 && NearRun(maxResends, Start(sent), es)
    ensures var s := Run(Mod32, maxResends, Start(sent), es);
            var x := Run(Exact, maxResends, Start(sent), es);
            && s.delivered == x.delivered
            && InOrder(x.log, x.base, x.member.reliable, s.delivered)
            && s.member.reliable == Wrap(s.base + |s.delivered|)
            && forall k :: 0 <= k < |s.delivered| ==> InOrderAt32(s, k)
  {
    hide *;
    RunRefines(maxResends, sent, es);
    DeliveredInRun(maxResends, sent, es);
    DeliveredWrapped(Run(Exact, maxResends, Start(sent), es));
  }

  lemma DeliveredInRun(maxResends: nat, sent: bool, es: seq<Event>)
    requires maxResends > 0
    ensures var x := Run(Exact, maxResends, Start(sent), es); InOrder(x.log, x.base, x.member.reliable, x.delivered)
  {
    RunKeeps(maxResends, Start(sent), es);
  }

  // ----- Loss and repair with 32-bit counters -----

  /** The verdict of the C code on a near wrapper off the log, whose header and
      counters are the wrapped ones. */
  lemma Verdict32(maxResends: nat, sent: bool, es: seq<Event>, i: nat)
    requires 0 < maxResends < TWO31 && NearRun(maxResends, Start(sent), es)
    requires var x := Run(Exact, maxResends, Start(sent), es); i < |x.log| && Near(x.member, x.log[i])
    ensures var s, x := Run(Mod32, maxResends, Start(sent), es), Run(Exact, maxResends, Start(sent), es);
            && Inv(maxResends, x) && |s.log| == |x.log| && s.member == Wrapped(x.member)
            && s.log[i] == WrappedHeader(x.log[i])
            && Judge(Mod32, s.member, s.log[i]) == Judge(Exact, x.member, x.log[i])
            && (SignedDiff(s.log[i].total, s.member.total) > 0 <==> x.log[i].total > x.member.total)
  {
    hide Wrap, SignedDiff, Judge, LogOk, InOrder, Step;
    RunRefines(maxResends, sent, es);
    StartKeeps(maxResends, sent);
    RunKeeps(maxResends, Start(sent), es);
    var x := Run(Exact, maxResends, Start(sent), es);
    GateRefines(maxResends, x.log, x.member, i);
    SignedDiffExact(x.log[i].total, x.member.total);
  }

  /** How far ahead a wrapper is, read off the wrapped counters. */
  lemma Gap32(maxResends: nat, log: seq<Wrapper>, m: Position, i: nat)
    requires maxResends > 0 && LogOk(maxResends, log) && OnLog(log, m.total, m.reliable)
    requires i < |log| && m.total < log[i].total && Near(m, log[i])
    ensures Wrap(Wrap(log[i].reliable) - Wrap(m.reliable)) == log[i].reliable - m.reliable
    ensures log[i].reliable - log[i].oldest < TWO32 ==>
              Wrap(Wrap(log[i].reliable) - Wrap(log[i].oldest)) == log[i].reliable - log[i].oldest
  {
    hide Wrap, LogOk;
    OnLogEntry(maxResends, log, i);
    LogRises(maxResends, log, m.total, i + 1);
    WrapMinus(log[i].reliable, m.reliable);
    WrapSmall(log[i].reliable - m.reliable);
    WrapMinus(log[i].reliable, log[i].oldest);
    WrapSmall(log[i].reliable - log[i].oldest);
  }

  /** SEQ_LOST with the counters of the C code. */
  lemma LostExactly32(maxResends: nat, sent: bool, es: seq<Event>, i: nat)
    requires 0 < maxResends < TWO31 && NearRun(maxResends, Start(sent), es)
    requires var x := Run(Exact, maxResends, Start(sent), es); i < |x.log| && Near(x.member, x.log[i])
    ensures var s := Run(Mod32, maxResends, Start(sent), es);
            && i < |s.log|
            && (Judge(Mod32, s.member, s.log[i]) == Lost <==>
                SignedDiff(s.log[i].total, s.member.total) > 0
                  && Wrap(s.log[i].reliable - s.member.reliable) > maxResends)
  {
    hide Wrap, SignedDiff, Judge, LogOk, InOrder, Run;
    Verdict32(maxResends, sent, es, i);
    var x := Run(Exact, maxResends, Start(sent), es);
    JudgeOnLog(maxResends, x.log, x.member, i);
    if x.log[i].total > x.member.total {
      Gap32(maxResends, x.log, x.member, i);
    }
  }

  /** The range of a SEQ_NAK with the counters of the C code: it is not empty, has
      no more numbers than the leader keeps, nor more than the window. */
  lemma NakRange32(maxResends: nat, sent: bool, es: seq<Event>, i: nat)
    requires 0 < maxResends < TWO31 && NearRun(maxResends, Start(sent), es)
    requires var x := Run(Exact, maxResends, Start(sent), es); i < |x.log| && Near(x.member, x.log[i])
    ensures var s := Run(Mod32, maxResends, Start(sent), es);
            && i < |s.log|
            && (Judge(Mod32, s.member, s.log[i]) == Nak ==>
                  var missing := Wrap(s.log[i].reliable - s.member.reliable);
                  0 < missing <= maxResends && missing <= Wrap(s.log[i].reliable - s.log[i].oldest) + 1)
  {
    hide Wrap, SignedDiff, Judge, LogOk, InOrder, Run;
    Verdict32(maxResends, sent, es, i);
    var x := Run(Exact, maxResends, Start(sent), es);
    if Judge(Exact, x.member, x.log[i]) == Nak {
      JudgeOnLog(maxResends, x.log, x.member, i);
      NakOnLog(maxResends, x.log, x.member, i);
      Gap32(maxResends, x.log, x.member, i);
    }
  }

  lemma NakOnLog(maxResends: nat, log: seq<Wrapper>, m: Position, i: nat)
    requires maxResends > 0 && LogOk(maxResends, log) && OnLog(log, m.total, m.reliable)
    requires i < |log| && Judge(Exact, m, log[i]) == Nak
    ensures m.total < log[i].total && log[i].oldest <= m.reliable + 1 <= log[i].reliable
    ensures log[i].reliable - m.reliable <= maxResends && log[i].reliable - log[i].oldest < maxResends
  {
    OnLogEntry(maxResends, log, i);
    JudgeOnLog(maxResends, log, m, i);
  }

  function WrappedHeaders(ws: seq<Wrapper>): (r: seq<Wrapper>)
    ensures |r| == |ws|
  {
    seq(|ws|, k requires 0 <= k < |ws| => WrappedHeader(ws[k]))
  }

  /** The missing wrappers up to `i` are on the log between the member and `i`. */
  lemma MissingBetween(maxResends: nat, log: seq<Wrapper>, p: Position, q: nat, i: nat)
    requires maxResends > 0 && LogOk(maxResends, log) && OnLog(log, p.total, p.reliable)
    requires q < |log| && log[q].isReliable && log[q].reliable == p.reliable + 1
    requires i < |log| && log[q].reliable <= log[i].reliable
    ensures p.total < log[q].total <= log[i].total
  {
    hide LogOk;
    OnLogEntry(maxResends, log, q);
    OnLogEntry(maxResends, log, i);
    if i < q {
      LogRises(maxResends, log, i + 1, q + 1);
    }
    if q + 1 <= p.total {
      LogRises(maxResends, log, q + 1, p.total);
    }
  }

  /** Replaying missing wrappers up to a near one gives the same with both kinds of
      counters. */
  lemma {:induction false} ReplayRefines(maxResends: nat, log: seq<Wrapper>, m: Position, i: nat, ws: seq<Wrapper>)
    requires 0 < maxResends < TWO31 && LogOk(maxResends, log) && OnLog(log, m.total, m.reliable)
    requires i < |log| && m.total < log[i].total && Near(m, log[i]) && m.reliable + |ws| <= log[i].reliable
    requires forall k :: 0 <= k < |ws| ==> ws[k] in log && ws[k].isReliable && ws[k].reliable == m.reliable + k + 1
    ensures var (p, vs) := Replay(Exact, m, ws);
            && Replay(Mod32, Wrapped(m), WrappedHeaders(ws)) == (Wrapped(p), vs)
            && m.total <= p.total <= log[i].total
  {
    hide LogOk, Judge, Advance, Wrapped, WrappedHeader;
    if ws == [] {
    } else {
      var init, w := ws[..|ws| - 1], ws[|ws| - 1];
      ReplayRefines(maxResends, log, m, i, init);
      RepairCloses(maxResends, log, m, init);
      var (p, vs) := Replay(Exact, m, init);
      var q :| 0 <= q < |log| && log[q] == w;
      MissingBetween(maxResends, log, p, q, i);
      NextIsValid(maxResends, log, p, q);
      GateRefines(maxResends, log, p, q);
      ValidMoves(p, w);
      assert WrappedHeaders(ws)[..|ws| - 1] == WrappedHeaders(init);
    }
  }

  lemma ValidMoves(p: Position, w: Wrapper)
    requires Judge(Exact, p, w) == Valid
    ensures Advance(Exact, p, w) == Position(w.total, w.reliable, w.oldest)
  {
  }

  /** `ws` are headers the leader sent, with the 32-bit reliable numbers missing up
      to `w`, and the gate takes them all and then has no gap before `w`. */
  ghost predicate Repairs32(log: seq<Wrapper>, m: Position, w: Wrapper, ws: seq<Wrapper>) {
    && (forall k :: 0 <= k < |ws| ==> ws[k] in log && ws[k].isReliable && ws[k].reliable == Wrap(m.reliable + k + 1))
    && var (p, vs) := Replay(Mod32, m, ws);
       AllValid(vs) && p.reliable == w.reliable && Judge(Mod32, p, w) in {Valid, Duplicate}
  }

  /** Every SEQ_NAK of the C code on a near wrapper can be answered. */
  lemma NakIsRepaired32(maxResends: nat, sent: bool, es: seq<Event>, i: nat) returns (ws: seq<Wrapper>)
    requires 0 < maxResends < TWO31 && NearRun(maxResends, Start(sent), es)
    requires var x := Run(Exact, maxResends, Start(sent), es); i < |x.log| && Near(x.member, x.log[i])
    requires var s := Run(Mod32, maxResends, Start(sent), es); i < |s.log| ==> Judge(Mod32, s.member, s.log[i]) == Nak
    ensures var s := Run(Mod32, maxResends, Start(sent), es);
            i < |s.log| && |ws| <= maxResends && Repairs32(s.log, s.member, s.log[i], ws)
  {
    hide Wrap, SignedDiff, Judge, LogOk, InOrder, Run, Repairs, Repairs32;
    Verdict32(maxResends, sent, es, i);
    var x := Run(Exact, maxResends, Start(sent), es);
    NakOnLog(maxResends, x.log, x.member, i);
    var xs := GapIsRepaired(maxResends, x.log, x.member, i);
    ws := WrappedHeaders(xs);
    RepairIs32(maxResends, x.log, x.member, i, xs);
    LogIs32(maxResends, sent, es);
  }

  lemma LogIs32(maxResends: nat, sent: bool, es: seq<Event>)
    requires 0 < maxResends < TWO31 && NearRun(maxResends, Start(sent), es)
    ensures Run(Mod32, maxResends, Start(sent), es).log == WrappedHeaders(Run(Exact, maxResends, Start(sent), es).log)
  {
    hide Run;
    RunRefines(maxResends, sent, es);
  }

  lemma RepairIs32(maxResends: nat, log: seq<Wrapper>, m: Position, i: nat, ws: seq<Wrapper>)
    requires 0 < maxResends < TWO31 && LogOk(maxResends, log) && OnLog(log, m.total, m.reliable)
    requires i < |log| && m.total < log[i].total && Near(m, log[i]) && Repairs(log, m, log[i], ws)
    ensures Repairs32(WrappedHeaders(log), Wrapped(m), WrappedHeader(log[i]), WrappedHeaders(ws))
    ensures |ws| == log[i].reliable - m.reliable
  {
    hide LogOk, Judge, Advance, Replay, Wrap;
    OnLogEntry(maxResends, log, i);
    ReplayRefines(maxResends, log, m, i, ws);
    RepairCloses(maxResends, log, m, ws);
    var (p, vs) := Replay(Exact, m, ws);
    GateRefines(maxResends, log, p, i);
    forall k | 0 <= k < |ws| ensures WrappedHeaders(ws)[k] in WrappedHeaders(log)
        && WrappedHeaders(ws)[k].isReliable && WrappedHeaders(ws)[k].reliable == Wrap(Wrap(m.reliable) + k + 1) {
      var q :| 0 <= q < |log| && log[q] == ws[k];
      assert WrappedHeaders(log)[q] == WrappedHeaders(ws)[k];
      WrapStep(m.reliable, k + 1);
      assert Wrap(m.reliable) + (k + 1) == Wrap(m.reliable) + k + 1;
      assert m.reliable + (k + 1) == m.reliable + k + 1;
    }
  }

  // ----- The gate of the C code on a run -----

  lemma HandsOn32(maxResends: nat, sent: bool, es: seq<Event>, i: nat)
    requires 0 < maxResends < TWO31 && NearRun(maxResends, Start(sent), es)
    requires var x := Run(Exact, maxResends, Start(sent), es); i < |x.log| && x.joined && Near(x.member, x.log[i])
    ensures var s, x := Run(Mod32, maxResends, Start(sent), es), Run(Exact, maxResends, Start(sent), es);
            && i < |s.log|
            && (HandsOn(Mod32, s, Receive(i)) <==> HandsOn(Exact, x, Receive(i)))
            && (HandsOn(Mod32, s, Receive(i)) <==> Takes32(maxResends, s.member, s.log[i]))
  {
    hide Wrap, SignedDiff, Judge, LogOk, InOrder, Run;
    Verdict32(maxResends, sent, es, i);
    Joined32(maxResends, sent, es);
    var x := Run(Exact, maxResends, Start(sent), es);
    JudgeOnLog(maxResends, x.log, x.member, i);
    if x.log[i].total > x.member.total {
      Gap32(maxResends, x.log, x.member, i);
    }
  }

  lemma Joined32(maxResends: nat, sent: bool, es: seq<Event>)
    requires 0 < maxResends < TWO31 && NearRun(maxResends, Start(sent), es)
    ensures Run(Mod32, maxResends, Start(sent), es).joined == Run(Exact, maxResends, Start(sent), es).joined
  {
    hide Run;
    RunRefines(maxResends, sent, es);
  }

  /** The same choice read off 32-bit counters. */
  predicate Takes32(maxResends: nat, m: Position, w: Wrapper) {
    var missing := Wrap(w.reliable - m.reliable);
    SignedDiff(w.total, m.total) > 0 && if w.isReliable then missing == 1 else missing <= maxResends
  }

  /** Runs with 32-bit counters pass on the same unreliable wrappers. */
  lemma {:induction false} Unreliable32(maxResends: nat, sent: bool, es: seq<Event>)
    requires 0 < maxResends < TWO31 && NearRun(maxResends, Start(sent), es)
    ensures Unreliable(Mod32, maxResends, sent, es) == Unreliable(Exact, maxResends, sent, es)
  {
    hide Wrap, SignedDiff, Judge, Run;
    if es == [] {
    } else {
      var init, e := es[..|es| - 1], es[|es| - 1];
      Unreliable32(maxResends, sent, init);
      LogIs32(maxResends, sent, init);
      Joined32(maxResends, sent, init);
      var x := Run(Exact, maxResends, Start(sent), init);
      if e.Receive? && x.joined && e.index < |x.log| {
        HandsOn32(maxResends, sent, init, e.index);
      }
    }
  }

  /** The sequence gate, called on a member's channel in a run with the `i`-th
      wrapper of the leader: what passes, what is asked for, when the member
      leaves, and the next state, each read off the numbers. */
  method GateOnRun(channel: Channel, w: Wrapper,
                   ghost maxResends: nat, ghost sent: bool, ghost es: seq<Event>, ghost i: nat)
    returns (passes: bool, nak: seq<(uint32, uint32)>, leave: bool)
    requires 0 < maxResends < TWO31 && NearRun(maxResends, Start(sent), es)
    requires InRange(Position(w.total, w.reliable, w.oldest))
    requires var x := Run(Exact, maxResends, Start(sent), es); i < |x.log| && x.joined && Near(x.member, x.log[i])
    requires var s := Run(Mod32, maxResends, Start(sent), es);
             channel.At() == s.member && i < |s.log| && w == s.log[i]
    modifies channel
    ensures var s := Run(Mod32, maxResends, Start(sent), es);
            var missing, ahead := Wrap(w.reliable - s.member.reliable), SignedDiff(w.total, s.member.total) > 0;
            && channel.At() == Step(Mod32, maxResends, s, Receive(i)).member
            && passes == Takes32(maxResends, s.member, w)
            && leave == (ahead && missing > maxResends)
            && nak == if ahead && missing <= maxResends && missing > (if w.isReliable then 1 else 0)
                      then [(Wrap(s.member.reliable + 1), w.reliable)] else []
  {
    hide Wrap, SignedDiff, Judge, Run, Advance;
    passes, nak, leave := channel.RxGate(w.isReliable, w.total, w.reliable, w.oldest);
    HandsOn32(maxResends, sent, es, i);
    Joined32(maxResends, sent, es);
    LostExactly32(maxResends, sent, es, i);
    Naks32(maxResends, sent, es, i);
  }

  lemma Naks32(maxResends: nat, sent: bool, es: seq<Event>, i: nat)
    requires 0 < maxResends < TWO31 && NearRun(maxResends, Start(sent), es)
    requires var x := Run(Exact, maxResends, Start(sent), es); i < |x.log| && Near(x.member, x.log[i])
    ensures var s := Run(Mod32, maxResends, Start(sent), es);
            && i < |s.log|
            && var missing := Wrap(s.log[i].reliable - s.member.reliable);
               Judge(Mod32, s.member, s.log[i]) == Nak <==>
               SignedDiff(s.log[i].total, s.member.total) > 0
               && (if s.log[i].isReliable then 1 else 0) < missing <= maxResends
  {
    hide Wrap, SignedDiff, Judge, LogOk, InOrder, Run;
    Verdict32(maxResends, sent, es, i);
    var x := Run(Exact, maxResends, Start(sent), es);
    JudgeOnLog(maxResends, x.log, x.member, i);
    if x.log[i].total > x.member.total {
      Gap32(maxResends, x.log, x.member, i);
    }
  }
}
