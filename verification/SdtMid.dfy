/** Member identifiers: the wrapping search for the next free one and what it
    keeps over the life of a locally led channel (acnsrc/sdt/sdt.c). */
module SdtMid {
  import opened Word
  import opened Chains

  function Next16(x: uint16): uint16 {
    (x + 1) % TWO16
  }

  /** The search loop; `n` numbers were found taken before. */
  function Search(held: seq<uint16>, a: uint16, n: nat): uint16
    requires n <= TWO16
    decreases TWO16 - n
  {
    if n == TWO16 || a !in held then a else Search(held, Next16(a), n + 1)
  }

  /** Where `sdt_next_member` starts looking. */
  function From(available: uint16): uint16 {
    if available == 0x7FFF then 1 else available
  }

  function NextMid(held: seq<uint16>, available: uint16): uint16 {
    Search(held, From(available), 0)
  }

  /** The number `i` places after `a`. */
  function Nth(a: uint16, i: nat): uint16 {
    (a + i) % TWO16
  }

  /** All numbers from `a` on, `n` of them. */
  function Numbers(a: uint16, n: nat): (s: seq<uint16>)
    ensures |s| == n
  {
    seq(n, i requires 0 <= i => Nth(a, i))
  }

  lemma NumbersDistinct(a: uint16, n: nat)
    requires n <= TWO16
    ensures Distinct(Numbers(a, n))
  {
  }

  lemma {:induction false} SearchTries(held: seq<uint16>, a: uint16, n: nat, b: uint16) returns (d: nat)
    requires n <= TWO16 && b == Nth(a, n) && forall i :: 0 <= i < n ==> Nth(a, i) in held
    requires |held| < TWO16
    ensures d < TWO16 && Search(held, b, n) == Nth(a, d) && Search(held, b, n) !in held
    ensures forall i :: 0 <= i < d ==> Nth(a, i) in held
    decreases TWO16 - n
  {
    NumbersDistinct(a, n);
    AllListed(Numbers(a, n), held);
    d := n;
    if b !in held {
    } else {
      d := SearchTries(held, a, n + 1, Next16(b));
    }
  }

  /** With fewer members than numbers the search ends, at the first number on or
      after its start that nobody holds. */
  lemma NextIsFree(held: seq<uint16>, available: uint16) returns (d: nat)
    requires |held| < TWO16
    ensures d < TWO16 && NextMid(held, available) == Nth(From(available), d) && NextMid(held, available) !in held
    ensures forall i :: 0 <= i < d ==> Nth(From(available), i) in held
  {
    d := SearchTries(held, From(available), 0, From(available));
  }

  /** An identifier of 0 is only given when no member waits for one. */
  lemma ZeroNotGiven(held: seq<uint16>, available: uint16)
    requires |held| < TWO16 && 0 in held
    ensures NextMid(held, available) != 0
  {
    var _ := NextIsFree(held, available);
  }

  // ----- Which identifiers are given -----

  /** `x` lies on the way from `from` to `target`, counting up and around. */
  predicate Before(from: uint16, x: uint16, target: uint16) {
    if from <= target then from <= x < target else from <= x || x < target
  }

  lemma BeforeIsNth(from: uint16, x: uint16, d: nat)
    requires d < TWO16
    ensures Before(from, x, Nth(from, d)) <==> (x - from) % TWO16 < d
    ensures Nth(from, (x - from) % TWO16) == x
  {
  }

  ghost predicate AllTaken(held: seq<uint16>, from: uint16, target: uint16) {
    forall x: uint16 :: Before(from, x, target) ==> x in held
  }

  /** Any identifier is given exactly when it is free and all on the way to it
      are taken. */
  lemma GivenExactly(held: seq<uint16>, available: uint16, target: uint16)
    requires |held| < TWO16
    ensures NextMid(held, available) == target <==> target !in held && AllTaken(held, From(available), target)
  {
    var from := From(available);
    var d := NextIsFree(held, available);
    var next := NextMid(held, available);
    if next == target {
      forall x: uint16 | Before(from, x, target) ensures x in held {
        BeforeIsNth(from, x, d);
      }
    } else if target !in held {
      BeforeIsNth(from, target, d);
      BeforeIsNth(from, next, (target - from) % TWO16);
      assert Before(from, next, target);
    }
  }

  /** When the two reserved values are given. The reset at 0x7FFF only looks at
      where the search starts, so nothing else keeps the search from them: 0x7FFF
      is given when all numbers up to it are taken from a start below, or all
      from a start above it round the end, and the broadcast value when all from
      the start to the end are. */
  lemma ReservedExactly(held: seq<uint16>, available: uint16)
    requires |held| < TWO16
    ensures NextMid(held, available) == 0xFFFF <==>
            0xFFFF !in held && forall x: uint16 :: From(available) <= x < 0xFFFF ==> x in held
    ensures NextMid(held, available) == 0x7FFF <==>
            0x7FFF !in held && forall x: uint16 ::
              (if From(available) < 0x7FFF then From(available) <= x < 0x7FFF else From(available) <= x || x < 0x7FFF)
              ==> x in held
  {
    GivenExactly(held, available, 0xFFFF);
    GivenExactly(held, available, 0x7FFF);
  }

  // ----- Runs -----

  /** The identifiers of a channel's members in list order, 0 where none was
      given yet, and the number to try next. */
  datatype Mids = Mids(held: seq<uint16>, available: uint16)

  const NO_MEMBERS := Mids([], 1)

  /** A member is added, if the pool has a slot left, given an identifier by a
      JOIN, or deleted. */
  datatype Event = AddMember(ok: bool) | SendJoin(i: nat) | DeleteMember(i: nat)

  function Step(max: nat, s: Mids, e: Event): Mids {
    match e
    case AddMember(ok) =>
      if ok && |s.held| < max then s.(held := [0] + s.held) else s
    case SendJoin(i) =>
      if i < |s.held| then
        var mid := NextMid(s.held, s.available);
        Mids(s.held[i := mid], Next16(mid))
      else s
    case DeleteMember(i) =>
      if i < |s.held| then s.(held := Without(s.held, i)) else s
  }

  function Run(max: nat, s: Mids, es: seq<Event>): Mids {
    if es == [] then s else Step(max, Run(max, s, es[..|es| - 1]), es[|es| - 1])
  }

  predicate Separate(held: seq<uint16>) {
    forall i, j :: 0 <= i < j < |held| && held[i] == held[j] ==> held[i] == 0
  }

  lemma StepKeeps(max: nat, s: Mids, e: Event)
    requires max < TWO16 && Separate(s.held) && |s.held| <= max
    ensures Separate(Step(max, s, e).held) && |Step(max, s, e).held| <= max
  {
    var _ := NextIsFree(s.held, s.available);
    match e
    case AddMember(_) =>
    case SendJoin(_) =>
    case DeleteMember(i) =>
  }

  /** Over all joins and deletions no two members of a channel share a non-zero
      identifier, however often the 16-bit counter wraps around. */
  lemma {:induction false} MidsStaySeparate(max: nat, s: Mids, es: seq<Event>)
    requires max < TWO16 && Separate(s.held) && |s.held| <= max
    ensures Separate(Run(max, s, es).held) && |Run(max, s, es).held| <= max
  {
    if es == [] {
    } else {
      MidsStaySeparate(max, s, es[..|es| - 1]);
      StepKeeps(max, Run(max, s, es[..|es| - 1]), es[|es| - 1]);
    }
  }

  lemma RunOneMore(max: nat, s: Mids, es: seq<Event>, e: Event)
    ensures Run(max, s, es + [e]) == Step(max, Run(max, s, es), e)
  {
    assert (es + [e])[..|es + [e]| - 1] == es;
  }

  // ----- Runs that reach the reserved values -----

  /** A run from a channel's start that leads to the state. */
  ghost predicate Reachable(max: nat, s: Mids) {
    exists es :: s == Run(max, NO_MEMBERS, es)
  }

  lemma StepReachable(max: nat, s: Mids, e: Event) returns (s': Mids)
    requires Reachable(max, s)
    ensures s' == Step(max, s, e) && Reachable(max, s')
  {
    var es :| s == Run(max, NO_MEMBERS, es);
    RunOneMore(max, NO_MEMBERS, es, e);
    s' := Step(max, s, e);
  }

  /** One more member is added and asked to join. */
  lemma Joins(max: nat, s: Mids) returns (s': Mids)
    requires Reachable(max, s) && |s.held| < max
    ensures s' == Mids([NextMid([0] + s.held, s.available)] + s.held, Next16(NextMid([0] + s.held, s.available)))
    ensures Reachable(max, s')
  {
    s' := StepReachable(max, s, AddMember(true));
    s' := StepReachable(max, s', SendJoin(0));
  }

  /** A member comes and goes, which moves the next number on by one. */
  lemma ComesAndGoes(max: nat, s: Mids) returns (s': Mids)
    requires Reachable(max, s) && |s.held| < max && |s.held| < TWO16 - 1
    requires From(s.available) != 0 && From(s.available) !in s.held
    ensures s' == Mids(s.held, Next16(From(s.available))) && Reachable(max, s')
  {
    GivenExactly([0] + s.held, s.available, From(s.available));
    s' := Joins(max, s);
    s' := StepReachable(max, s', DeleteMember(0));
  }

  /** Members coming and going move the next number on to any number ahead, if
      neither the reset nor a taken number lies between. */
  lemma {:induction false} CountsUp(max: nat, s: Mids, upto: uint16) returns (s': Mids)
    requires Reachable(max, s) && |s.held| < max && |s.held| < TWO16 - 1
    requires 0 < s.available <= upto && (s.available <= 0x7FFF ==> upto <= 0x7FFF)
    requires forall x: uint16 :: s.available <= x < upto ==> x !in s.held
    ensures s' == Mids(s.held, upto) && Reachable(max, s')
    decreases upto - s.available
  {
    if s.available == upto {
      s' := s;
    } else {
      s' := ComesAndGoes(max, s);
      s' := CountsUp(max, s', upto);
    }
  }

  /** Two members are enough: one stays with 0x7FFE while others come and go, and
      the next one on top of it is given 0x7FFF, or later the broadcast value. */
  lemma ReservedHappens(max: nat) returns (low: Mids, high: Mids)
    requires max >= 2
    ensures Reachable(max, low) && low.held == [0x7FFF, 0x7FFE]
    ensures Reachable(max, high) && high.held == [0xFFFF, 0x7FFE]
  {
    var s := NO_MEMBERS;
    assert s == Run(max, NO_MEMBERS, []);
    s := CountsUp(max, s, 0x7FFE);
    GivenExactly([0], 0x7FFE, 0x7FFE);
    s := Joins(max, s);
    s := ComesAndGoes(max, s);
    s := CountsUp(max, s, 0x7FFE);
    GivenExactly([0, 0x7FFE], 0x7FFE, 0x7FFF);
    low := Joins(max, s);
    s := StepReachable(max, low, DeleteMember(0));
    s := CountsUp(max, s, 0xFFFF);
    GivenExactly([0, 0x7FFE], 0xFFFF, 0xFFFF);
    high := Joins(max, s);
  }
}
