/** Multicast addresses of channels (EPI 10): a scope, eight bits of the host's
    address, and a counter (acnsrc/common/mcast_util.c). Addresses and masks are
    in host order here. */
module McastAlloc {
  import opened Word
  import opened Bits

  /** `ffs_1` */
  method Ffs(v: bv32) returns (p: nat)
    ensures p == LowPlace(v) && (p == 0 <==> v == 0)
  {
    if v == 0 { return 0; }
    var x := v;
    p := 1;
    while x & 1 == 0
      invariant x != 0 && LowPlace(v) == p - 1 + LowPlace(x)
      decreases x
    {
      x := x >> 1;
      p := p + 1;
    }
  }

  // ----- The scope -----

  const AUTO_SCOPE_ADDRESS: bv32 := 0xEFC0_0000
  const AUTO_SCOPE_MASK: bv32 := 0xFFFC_0000
  const SCOPE_MIN_MASK: bv32 := 0xFFC0_0000
  const SCOPE_MAX_MASK: bv32 := 0xFFFF_0000

  /** Scope address and mask, defaulted and cut to the range of EPI 10. */
  function ScopeOf(addr: bv32, mask: bv32): bv32 {
    if addr == 0 then Masked(AUTO_SCOPE_ADDRESS, AUTO_SCOPE_MASK) else Masked(addr, mask)
  }

  function MaskOf(addr: bv32, mask: bv32): bv32 {
    Masked(Joined(if addr == 0 then AUTO_SCOPE_MASK else mask, SCOPE_MIN_MASK), SCOPE_MAX_MASK)
  }

  predicate Accepted(addr: bv32, mask: bv32) {
    Within(ScopeOf(addr, mask), MaskOf(addr, mask))
  }

  lemma MaskInRange(addr: bv32, mask: bv32)
    ensures Apart(MaskOf(addr, mask), 0xffff)
    ensures !Apart(MaskOf(addr, mask), 0x7f_ffff)
    ensures MaskOf(addr, mask) != 0
  {
    assert Apart(MaskOf(addr, mask), 0xffff);
    assert !Apart(MaskOf(addr, mask), 0x7f_ffff);
  }

  /** `HostShift` */
  function HostShift(m: bv32): int {
    LowPlace(m) - 9
  }

  /** For every mask in range it is between 8 and 14, and the mask is apart from
      the bits of the host and those below. */
  lemma ShiftInRange(addr: bv32, mask: bv32)
    ensures var m := MaskOf(addr, mask);
            8 <= HostShift(m) <= 14 && Apart(m, Ones(HostShift(m) + 8))
  {
    hide LowPlace, Apart, MaskOf;
    var m := MaskOf(addr, mask);
    MaskInRange(addr, mask);
    OnesValues();
    PlaceAbove(m, 16);
    PlaceAbove(m, 23);
    PlaceAbove(m, LowPlace(m) - 1);
  }

  function HostPart(ip: bv32, shift: nat): bv32 {
    ShiftUp(ip & 0xff, shift)
  }

  lemma HostBits(ip: bv32)
    ensures Within(ip & 0xff, Ones(8))
  {
    OnesValues();
    assert Within(ip & 0xff, 0xff);
  }

  /** The three parts share no bits. */
  lemma FieldsApart(addr: bv32, mask: bv32, ip: bv32)
    ensures var m := MaskOf(addr, mask);
            var shift := HostShift(m);
            && 8 <= shift <= 14
            && Apart(HostPart(ip, shift), m) && Apart(Ones(shift), m) && Apart(HostPart(ip, shift), Ones(shift))
  {
    hide Within, Apart, MaskOf, Ones, HostPart, HostShift;
    var m := MaskOf(addr, mask);
    ShiftInRange(addr, mask);
    var shift := HostShift(m);
    HostField(ip, shift);
    OnesWithin(shift, shift + 8);
    Swap(m, Ones(shift + 8));
    Outside(HostPart(ip, shift), Ones(shift + 8), m);
    Outside(Ones(shift), Ones(shift + 8), m);
  }

  lemma HostField(ip: bv32, shift: nat)
    ensures Within(HostPart(ip, shift), Ones(shift + 8)) && Apart(HostPart(ip, shift), Ones(shift))
  {
    hide Within, Apart, Ones;
    HostBits(ip);
    ShiftedField(ip & 0xff, 8, shift);
  }

  // ----- Allocation -----

  /** `comp->dyn_mcast` */
  class Component {
    var dynMcast: bv16

    constructor ()
      ensures dynMcast == 0
    {
      dynMcast := 0;
    }
  }

  /** The counter's part of an address. */
  function Count(dynMask: bv16, n: bv16): bv32 {
    Widen(dynMask & n)
  }

  /** The address for counter value `n`. */
  function Address(scopeAndHost: bv32, dynMask: bv16, n: bv16): bv32 {
    Joined(scopeAndHost, Count(dynMask, n))
  }

  /** The globals `scope_and_host` and `dyn_mask`. */
  class Allocator {
    var scopeAndHost: bv32
    var dynMask: bv16

    constructor ()
      ensures scopeAndHost == 0 && dynMask == 0
    {
      scopeAndHost, dynMask := 0, 0;
    }

    /** `mcast_alloc_init`; `ip` is the own address, `node` and `timeLow` are parts
        of the component's CID. */
    method Init(scopeaddr: bv32, scopemask: bv32, ip: bv32, node: bv16, timeLow: bv16, comp: Component)
      returns (ok: bool)
      modifies this, comp
      ensures ok == Accepted(scopeaddr, scopemask)
      ensures !ok ==>
              scopeAndHost == old(scopeAndHost) && dynMask == old(dynMask) && comp.dynMcast == old(comp.dynMcast)
      ensures ok ==>
                var shift := HostShift(MaskOf(scopeaddr, scopemask));
                && 8 <= shift <= 14
                && scopeAndHost == Joined(ScopeOf(scopeaddr, scopemask), HostPart(ip, shift))
                && dynMask == Ones16(shift) && comp.dynMcast == Seed(node, timeLow, dynMask)
    {
      hide *;
      ShiftInRange(scopeaddr, scopemask);
      var scope, mask := CutScope(scopeaddr, scopemask);
      ok := Within(scope, mask);
      AcceptedIs(scopeaddr, scopemask);
      if !ok { return; }
      var place := Ffs(mask);
      ShiftIs(mask);
      var hostShift: nat := place - 9;
      dynMask := Ones16(hostShift);
      scopeAndHost := Joined(scope, HostPart(ip, hostShift));
      comp.dynMcast := Seed(node, timeLow, dynMask);
    }

    /** `mcast_alloc_new` */
    method New(comp: Component) returns (a: bv32)
      modifies comp
      ensures a == Address(scopeAndHost, dynMask, old(comp.dynMcast)) && comp.dynMcast == old(comp.dynMcast) + 1
    {
      a := scopeAndHost | ((dynMask & comp.dynMcast) as bv32);
      comp.dynMcast := comp.dynMcast + 1;
    }
  }

  function Seed(node: bv16, timeLow: bv16, m: bv16): bv16 {
    (node ^ timeLow) & m
  }

  lemma AcceptedIs(addr: bv32, mask: bv32)
    ensures Accepted(addr, mask) == Within(ScopeOf(addr, mask), MaskOf(addr, mask))
  {
  }

  lemma ShiftIs(m: bv32)
    ensures HostShift(m) == LowPlace(m) - 9
  {
  }

  /** The masking at the start of `mcast_alloc_init`. */
  method CutScope(addr: bv32, mask: bv32) returns (scope: bv32, m: bv32)
    ensures scope == ScopeOf(addr, mask) && m == MaskOf(addr, mask)
  {
    hide Masked, Joined;
    scope, m := addr, mask;
    if scope == 0 {
      scope, m := AUTO_SCOPE_ADDRESS, AUTO_SCOPE_MASK;
    }
    scope := Masked(scope, m);
    m := Joined(m, SCOPE_MIN_MASK);
    m := Masked(m, SCOPE_MAX_MASK);
  }

  // ----- What an address keeps -----

  lemma CountWithin(m: bv16, n: bv16)
    ensures Within(Count(m, n), Widen(m))
  {
  }

  /** For every accepted scope, an allocated address has the scope's bits under the
      mask and the counter's below the host's, whatever the counter. */
  lemma AddressKeeps(addr: bv32, mask: bv32, ip: bv32, n: bv16)
    requires Accepted(addr, mask)
    ensures var m := MaskOf(addr, mask);
            var shift := HostShift(m);
            && 8 <= shift <= 14
            && var scopeAndHost := Joined(ScopeOf(addr, mask), HostPart(ip, shift));
            var a := Address(scopeAndHost, Ones16(shift), n);
            && Masked(a, m) == ScopeOf(addr, mask)
            && Masked(a, Ones(shift)) == Count(Ones16(shift), n)
            && Apart(scopeAndHost, Ones(shift))
  {
    hide Within, Apart, MaskOf, ScopeOf, Ones, HostPart, HostShift, Joined, Ones16, Masked, Count;
    var m, scope := MaskOf(addr, mask), ScopeOf(addr, mask);
    FieldsApart(addr, mask, ip);
    var shift := HostShift(m);
    Ones16Is(shift);
    var c := Count(Ones16(shift), n);
    CountWithin(Ones16(shift), n);
    Outside(c, Ones(shift), m);
    Swap(Ones(shift), m);
    Outside(scope, m, Ones(shift));
    KeepsScope(scope, m, HostPart(ip, shift), c);
    KeepsCount(scope, HostPart(ip, shift), c, Ones(shift));
    JoinApart(scope, HostPart(ip, shift), Ones(shift));
  }

  // ----- What the parts are -----

  /** 239.192.0.0 with a mask of 14 bits by default. */
  lemma DefaultScope(mask: bv32)
    ensures ScopeOf(0, mask) == 0xefc0_0000 && MaskOf(0, mask) == 0xfffc_0000 && Accepted(0, mask)
    ensures HostShift(0xfffc_0000) == 10
  {
    OnesValues();
    assert Ones(17) == Longer(Ones(16)) && Ones(18) == Longer(Ones(17)) && Ones(19) == Longer(Ones(18));
    PlaceAbove(0xfffc_0000, 18);
    PlaceAbove(0xfffc_0000, 19);
  }

  /** A scope is refused exactly if it keeps, under its own mask, one of the 16
      low bits. Of the mask the next six bits count and the rest is given. */
  lemma ScopeExactly(addr: bv32, mask: bv32)
    requires addr != 0
    ensures Accepted(addr, mask) <==> addr & mask & 0xffff == 0
    ensures ScopeOf(addr, mask) == addr & mask
    ensures MaskOf(addr, mask) == 0xffc0_0000 | (mask & 0x3f_0000)
  {
    assert Accepted(addr, mask) <==> addr & mask & 0xffff == 0;
  }

  /** The host's eight bits lie directly below the mask. */
  lemma HostBelowMask(addr: bv32, mask: bv32)
    ensures var m := MaskOf(addr, mask);
            var shift := HostShift(m);
            8 <= shift <= 14 && Apart(m, Ones(shift + 8)) && !Apart(m, Ones(shift + 9))
  {
    hide Apart, MaskOf;
    var m := MaskOf(addr, mask);
    MaskInRange(addr, mask);
    ShiftInRange(addr, mask);
    PlaceAbove(m, LowPlace(m));
  }

  lemma HostTells(ip: bv32, ip': bv32, shift: nat)
    requires shift <= 14
    ensures HostPart(ip, shift) == HostPart(ip', shift) <==> Masked(ip, 0xff) == Masked(ip', 0xff)
  {
    HostBits(ip);
    HostBits(ip');
    if HostPart(ip, shift) == HostPart(ip', shift) {
      ShiftTellsApart(ip & 0xff, ip' & 0xff, 8, shift);
    }
  }

  /** Hosts whose addresses differ in the last octet never allocate the same
      address from one scope; others do exactly if the counters agree in their
      field. */
  lemma HostsApart(addr: bv32, mask: bv32, ip: bv32, ip': bv32, n: bv16, n': bv16)
    requires Accepted(addr, mask)
    ensures var shift := HostShift(MaskOf(addr, mask));
            && 8 <= shift <= 14
            && var s, s' := Joined(ScopeOf(addr, mask), HostPart(ip, shift)),
                            Joined(ScopeOf(addr, mask), HostPart(ip', shift));
            (Address(s, Ones16(shift), n) == Address(s', Ones16(shift), n') <==>
              Masked(ip, 0xff) == Masked(ip', 0xff) && Field(Ones16(shift), n) == Field(Ones16(shift), n'))
  {
    hide Within, Apart, MaskOf, ScopeOf, Ones, HostPart, HostShift, Joined, Ones16, Masked, Count, Field, Accepted;
    var m, scope := MaskOf(addr, mask), ScopeOf(addr, mask);
    AcceptedIs(addr, mask);
    FieldsApart(addr, mask, ip);
    FieldsApart(addr, mask, ip');
    AddressKeeps(addr, mask, ip, n);
    AddressKeeps(addr, mask, ip', n');
    var shift := HostShift(m);
    Ones16Is(shift);
    CountWithin(Ones16(shift), n);
    CountWithin(Ones16(shift), n');
    Swap(Ones(shift), m);
    Outside(scope, m, Ones(shift));
    PartsTell(scope, m, HostPart(ip, shift), HostPart(ip', shift), Count(Ones16(shift), n), Count(Ones16(shift), n'),
      Ones(shift));
    HostTells(ip, ip', shift);
    CountTells(Ones16(shift), n, n');
  }

  lemma PartsTell(scope: bv32, m: bv32, host: bv32, host': bv32, c: bv32, c': bv32, dyn: bv32)
    requires Within(scope, m) && Apart(scope, dyn) && Within(c, dyn) && Within(c', dyn)
    requires Apart(host, m) && Apart(host', m) && Apart(host, dyn) && Apart(host', dyn)
    ensures Joined(Joined(scope, host), c) == Joined(Joined(scope, host'), c') <==> host == host' && c == c'
  {
    hide Within, Apart, Joined, Masked;
    KeepsHost(scope, m, host, c, dyn);
    KeepsHost(scope, m, host', c', dyn);
    KeepsCount(scope, host, c, dyn);
    KeepsCount(scope, host', c', dyn);
  }

  lemma CountTells(m: bv16, n: bv16, n': bv16)
    ensures Count(m, n) == Count(m, n') <==> Field(m, n) == Field(m, n')
  {
  }

  /** Components of one host begin with the same address exactly if the parts of
      their CIDs, taken together, agree in the counter's field. */
  lemma FirstExactly(s: bv32, m: bv16, node: bv16, timeLow: bv16, node': bv16, timeLow': bv16)
    requires Apart(s, Widen(m))
    ensures Address(s, m, Seed(node, timeLow, m)) == Address(s, m, Seed(node', timeLow', m)) <==>
            Field(m, node ^ timeLow) == Field(m, node' ^ timeLow')
  {
    hide Seed, Field, Address, Apart, Widen;
    SeedTells(m, node, timeLow);
    SeedTells(m, node', timeLow');
    var a, b := Seed(node, timeLow, m), Seed(node', timeLow', m);
    if Field(m, a) == Field(m, b) {
      CountsDecide(s, m, a, b);
    } else {
      CountsShow(s, m, Widen(m), a, b);
    }
  }

  lemma SeedTells(m: bv16, node: bv16, timeLow: bv16)
    ensures Field(m, Seed(node, timeLow, m)) == Field(m, node ^ timeLow)
  {
  }

  // ----- Consecutive allocations -----

  /** The counter after `n` allocations. */
  function Counter(c: bv16, n: nat): bv16 {
    if n == 0 then c else Inc(Counter(c, n - 1))
  }

  lemma {:induction false} RankRun(shift: nat, c: bv16, n: nat)
    requires shift <= 14
    ensures Rank(Field(Ones16(shift), Counter(c, n))) == (Rank(Field(Ones16(shift), c)) + n) % Power(shift)
  {
    hide Rank, Field, Inc, Small, AllOnes, Ones16;
    var m := Ones16(shift);
    var r := Rank(Field(m, c));
    FieldSmall(m, c);
    RankBound(shift, Field(m, c));
    if n == 0 {
      DivMod(r, Power(shift), 0, r);
    } else {
      RankRun(shift, c, n - 1);
      var x := Counter(c, n - 1);
      FieldSmall(m, x);
      RankNext(shift, x, Field(m, x));
      NextMod(r + n - 1, Power(shift));
    }
  }

  lemma RankNext(shift: nat, x: bv16, y: bv16)
    requires shift <= 14 && y == Field(Ones16(shift), x)
    ensures Rank(y) < Power(shift)
    ensures Rank(Field(Ones16(shift), Inc(x))) == if Rank(y) + 1 == Power(shift) then 0 else Rank(y) + 1
  {
    hide Rank, Field, Inc, Small, AllOnes, Ones16;
    var m := Ones16(shift);
    Ones16AllOnes(shift);
    FieldSmall(m, x);
    FieldNext(m, x);
    RankBound(shift, y);
    RankZero();
    if y == m {
      FieldAround(m);
    } else {
      FieldUp(m, y);
      UpNotZero(m, y);
      UpAndDown(y);
      RankStep(Inc(y), y);
      FieldSmall(m, Inc(y));
      RankBound(shift, Inc(y));
    }
  }

  lemma CountsShow(s: bv32, m: bv16, o: bv32, a: bv16, b: bv16)
    requires o == Widen(m) && Apart(s, o) && Field(m, a) != Field(m, b)
    ensures Address(s, m, a) != Address(s, m, b)
  {
  }

  lemma CountsDecide(s: bv32, m: bv16, a: bv16, b: bv16)
    requires Field(m, a) == Field(m, b)
    ensures Address(s, m, a) == Address(s, m, b)
  {
  }

  lemma SameAddress(s: bv32, shift: nat, c: bv16, i: nat, j: nat)
    requires shift <= 14 && Apart(s, Ones(shift)) && i <= j
    ensures var m := Ones16(shift);
            Address(s, m, Counter(c, i)) == Address(s, m, Counter(c, j)) <==> (j - i) % Power(shift) == 0
  {
    hide Rank, Field, Inc, Apart, Ones16, Address, Counter, Ones;
    var m := Ones16(shift);
    Ones16Is(shift);
    RankRun(shift, c, i);
    RankRun(shift, c, j);
    if Field(m, Counter(c, i)) == Field(m, Counter(c, j)) {
      CountsDecide(s, m, Counter(c, i), Counter(c, j));
    } else {
      CountsShow(s, m, Ones(shift), Counter(c, i), Counter(c, j));
    }
    SameMod(Rank(Field(m, c)) + i, Rank(Field(m, c)) + j, Power(shift));
    if Rank(Field(m, Counter(c, i))) == Rank(Field(m, Counter(c, j))) {
      RankTellsApart(Field(m, Counter(c, i)), Field(m, Counter(c, j)));
    }
  }

  /** For every accepted scope, two allocations of one component give the same
      address exactly when their distance is a multiple of the number of values of
      the counter's field, also when the 16-bit counter wraps in between. In
      particular `Power(shift)` allocations in a row are all different. */
  lemma AllocationsRepeat(addr: bv32, mask: bv32, ip: bv32, c: bv16, i: nat, j: nat)
    requires Accepted(addr, mask) && i <= j
    ensures var shift := HostShift(MaskOf(addr, mask));
            && 8 <= shift <= 14
            && var s := Joined(ScopeOf(addr, mask), HostPart(ip, shift));
            (Address(s, Ones16(shift), Counter(c, i)) == Address(s, Ones16(shift), Counter(c, j)) <==>
              (j - i) % Power(shift) == 0)
  {
    hide Apart, Joined, ScopeOf, MaskOf, HostPart, HostShift, Address, Ones, Ones16, Counter;
    AddressKeeps(addr, mask, ip, c);
    SameAddress(Joined(ScopeOf(addr, mask), HostPart(ip, HostShift(MaskOf(addr, mask)))), HostShift(MaskOf(addr, mask)),
      c, i, j);
  }

  lemma SameMod(x: int, y: int, p: int)
    requires p > 0
    ensures x % p == y % p <==> (y - x) % p == 0
  {
    var a, b := x / p, y / p;
    assert x == a * p + x % p && y == b * p + y % p;
    assert (b - a) * p == b * p - a * p;
    if x % p <= y % p {
      DivMod(y - x, p, b - a, y % p - x % p);
    } else {
      assert (b - a - 1) * p == (b - a) * p - p;
      DivMod(y - x, p, b - a - 1, y % p - x % p + p);
    }
  }
}
