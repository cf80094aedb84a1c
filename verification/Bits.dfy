/** Facts about the bits of 32- and 16-bit words, each a small lemma over plain
    variables; larger proofs use the words only through the names given here. */
module Bits {

  // ----- Bits -----

  predicate Within(x: bv32, m: bv32) {
    x & m == x
  }

  predicate Apart(x: bv32, m: bv32) {
    x & m == 0
  }

  /** `(1 << k) - 1` */
  function Ones(k: nat): bv32 {
    if k == 0 then 0 else Longer(Ones(k - 1))
  }

  function Longer(o: bv32): bv32 {
    (o << 1) | 1
  }

  /** `x << k` */
  function ShiftUp(x: bv32, k: nat): bv32 {
    if k == 0 then x else Twice(ShiftUp(x, k - 1))
  }

  function Twice(x: bv32): bv32 {
    x << 1
  }

  lemma Outside(x: bv32, m: bv32, n: bv32)
    requires Within(x, m) && Apart(m, n)
    ensures Apart(x, n)
  {
  }

  lemma Swap(x: bv32, m: bv32)
    requires Apart(x, m)
    ensures Apart(m, x)
  {
  }

  lemma WithinLonger(y: bv32, o: bv32)
    requires Within(y, o)
    ensures Within(Twice(y), Longer(o))
  {
  }

  lemma ApartLonger(y: bv32, o: bv32)
    requires Apart(y, o)
    ensures Apart(Twice(y), Longer(o))
  {
  }

  lemma LongerWithin(o: bv32, p: bv32)
    requires Within(o, p)
    ensures Within(Longer(o), Longer(p))
  {
  }

  /** Shifting moves a value above the new low bits and no further than it must. */
  lemma {:induction false} ShiftedField(x: bv32, j: nat, k: nat)
    requires Within(x, Ones(j))
    ensures Within(ShiftUp(x, k), Ones(j + k)) && Apart(ShiftUp(x, k), Ones(k))
  {
    hide Within, Apart, Longer, Twice;
    if k == 0 {
      ApartZero(x);
    } else {
      ShiftedField(x, j, k - 1);
      WithinLonger(ShiftUp(x, k - 1), Ones(j + k - 1));
      ApartLonger(ShiftUp(x, k - 1), Ones(k - 1));
    }
  }

  lemma TwiceTellsApart(x: bv32, y: bv32)
    requires Within(x, 0x7fff_ffff) && Within(y, 0x7fff_ffff) && Twice(x) == Twice(y)
    ensures x == y
  {
  }

  /** No bit is lost that stays within the word. */
  lemma {:induction false} ShiftTellsApart(x: bv32, y: bv32, j: nat, k: nat)
    requires Within(x, Ones(j)) && Within(y, Ones(j)) && j + k <= 32
    requires ShiftUp(x, k) == ShiftUp(y, k)
    ensures x == y
  {
    hide Within, Apart, Longer, Twice;
    if k == 0 {
    } else {
      ShiftedField(x, j, k - 1);
      ShiftedField(y, j, k - 1);
      OnesValues();
      OnesWithin(j + k - 1, 31);
      WithinBoth(ShiftUp(x, k - 1), Ones(j + k - 1), Ones(31));
      WithinBoth(ShiftUp(y, k - 1), Ones(j + k - 1), Ones(31));
      TwiceTellsApart(ShiftUp(x, k - 1), ShiftUp(y, k - 1));
      ShiftTellsApart(x, y, j, k - 1);
    }
  }

  lemma WithinBoth(x: bv32, m: bv32, n: bv32)
    requires Within(x, m) && Within(m, n)
    ensures Within(x, n)
  {
  }

  lemma ApartZero(x: bv32)
    ensures Apart(x, 0)
  {
  }

  lemma {:induction false} OnesWithin(j: nat, k: nat)
    requires j <= k
    ensures Within(Ones(j), Ones(k))
  {
    hide Within, Longer;
    if j == 0 {
      ZeroWithin(Ones(k));
    } else {
      OnesWithin(j - 1, k - 1);
      LongerWithin(Ones(j - 1), Ones(k - 1));
    }
  }

  lemma ZeroWithin(x: bv32)
    ensures Within(0, x)
  {
  }

  lemma OnesValues()
    ensures Ones(8) == 0xff && Ones(15) == 0x7fff && Ones(16) == 0xffff
    ensures Ones(23) == 0x7f_ffff && Ones(31) == 0x7fff_ffff
  {
    assert Ones(4) == 0xf;
    assert Ones(8) == 0xff;
    assert Ones(12) == 0xfff;
    assert Ones(15) == 0x7fff;
    assert Ones(16) == 0xffff;
    assert Ones(20) == 0xf_ffff;
    assert Ones(23) == 0x7f_ffff;
    assert Ones(24) == 0xff_ffff;
    assert Ones(28) == 0xfff_ffff;
  }

  // ----- The lowest bit of a word -----

  predicate Odd(x: bv32) {
    x & 1 == 1
  }

  /** The place of the lowest bit set, counting from 1; 0 if there is none. */
  function LowPlace(x: bv32): nat
    decreases x
  {
    if x == 0 then 0 else if x & 1 == 1 then 1 else 1 + LowPlace(x >> 1)
  }

  lemma PlaceOf(x: bv32, y: bv32)
    requires x != 0 && y == x >> 1
    ensures LowPlace(x) == if Odd(x) then 1 else 1 + LowPlace(y)
  {
  }

  lemma HalfNotZero(x: bv32, y: bv32)
    requires x != 0 && y == x >> 1 && !Odd(x)
    ensures y != 0
  {
  }

  lemma OddNotApart(x: bv32, o: bv32)
    requires Odd(x)
    ensures !Apart(x, Longer(o))
  {
  }

  lemma EvenApart(x: bv32, y: bv32, o: bv32)
    requires !Odd(x) && y == x >> 1
    ensures Apart(y, o) ==> Apart(x, Longer(o))
  {
  }

  lemma ApartEven(x: bv32, y: bv32, o: bv32)
    requires y == x >> 1 && Apart(x, Longer(o)) && Within(o, 0x7fff_ffff)
    ensures Apart(y, o)
  {
  }

  /** The lowest bit lies above place `k` exactly when the `k` low bits are clear. */
  lemma {:induction false} PlaceAbove(x: bv32, k: nat)
    requires x != 0 && k <= 32
    ensures LowPlace(x) > k <==> Apart(x, Ones(k))
  {
    hide LowPlace, Odd, Apart, Within, Longer;
    var y := x >> 1;
    PlaceOf(x, y);
    if k == 0 {
      ApartZero(x);
    } else if Odd(x) {
      OddNotApart(x, Ones(k - 1));
    } else {
      HalfNotZero(x, y);
      PlaceAbove(y, k - 1);
      EvenApart(x, y, Ones(k - 1));
      if Apart(x, Ones(k)) {
        OnesWithin(k - 1, 31);
        OnesValues();
        ApartEven(x, y, Ones(k - 1));
      }
    }
  }

  function Joined(x: bv32, y: bv32): bv32 {
    x | y
  }

  function Masked(x: bv32, m: bv32): bv32 {
    x & m
  }

  lemma KeepsScope(scope: bv32, m: bv32, host: bv32, c: bv32)
    requires Within(scope, m) && Apart(host, m) && Apart(c, m)
    ensures Masked(Joined(Joined(scope, host), c), m) == scope
  {
  }

  lemma KeepsHost(scope: bv32, m: bv32, host: bv32, c: bv32, dyn: bv32)
    requires Within(scope, m) && Within(c, dyn) && Apart(host, m) && Apart(host, dyn)
    ensures Masked(Joined(Joined(scope, host), c), !(m | dyn)) == host
  {
  }

  lemma KeepsCount(scope: bv32, host: bv32, c: bv32, dyn: bv32)
    requires Apart(scope, dyn) && Apart(host, dyn) && Within(c, dyn)
    ensures Masked(Joined(Joined(scope, host), c), dyn) == c
  {
  }

  lemma JoinApart(x: bv32, y: bv32, m: bv32)
    requires Apart(x, m) && Apart(y, m)
    ensures Apart(Joined(x, y), m)
  {
  }

  // ----- 16-bit words -----

  function Widen(x: bv16): bv32 {
    x as bv32
  }

  function Longer16(m: bv16): bv16 {
    (m << 1) | 1
  }

  /** `(uint16_t)((1 << shift) - 1)` */
  function Ones16(shift: nat): bv16 {
    if shift == 0 then 0 else Longer16(Ones16(shift - 1))
  }

  lemma WidenIs(m: bv16, w: bv32)
    requires w == m as bv32
    ensures Widen(m) == w
  {
  }

  lemma TopOff(m: bv16, o: bv32)
    requires o == Widen(m) && Apart(o, 0x8000)
    ensures m & 0x8000 == 0
  {
  }

  lemma LongerWidens(m: bv16, x: bv16, y: bv32)
    requires m & 0x8000 == 0 && x == (m << 1) | 1 && y == ((m as bv32) << 1) | 1
    ensures x as bv32 == y
  {
  }

  lemma LongerNamed(m: bv16) returns (x: bv16, y: bv32)
    ensures x == (m << 1) | 1 && y == ((m as bv32) << 1) | 1
    ensures x == Longer16(m) && y == Longer(Widen(m))
  {
    x, y := (m << 1) | 1, ((m as bv32) << 1) | 1;
  }

  lemma Widens(m: bv16, o: bv32)
    requires o == Widen(m) && Apart(o, 0x8000)
    ensures Widen(Longer16(m)) == Longer(o)
  {
    hide *;
    TopOff(m, o);
    var x, y := LongerNamed(m);
    LongerWidens(m, x, y);
    WidenIs(x, y);
  }

  lemma {:induction false} Ones16Is(shift: nat)
    requires shift <= 15
    ensures Widen(Ones16(shift)) == Ones(shift)
  {
    hide Within, Apart, Longer, Longer16, Widen;
    if shift > 0 {
      Ones16Is(shift - 1);
      OnesWithin(shift - 1, 15);
      Ones15(Ones(shift - 1));
      Widens(Ones16(shift - 1), Ones(shift - 1));
    } else {
      WidenZero();
    }
  }

  lemma WidenZero()
    ensures Widen(0) == 0
  {
  }

  lemma Ones15(x: bv32)
    requires Within(x, Ones(15))
    ensures Apart(x, 0x8000)
  {
    OnesValues();
    Outside(x, 0x7fff, 0x8000);
  }

  // ----- Counters and the fields below a mask -----

  /** The mask is a run of ones from the lowest bit. */
  predicate AllOnes(m: bv16) {
    m & (m + 1) == 0
  }

  lemma LongerAllOnes(m: bv16)
    requires AllOnes(m)
    ensures AllOnes(Longer16(m))
  {
  }

  lemma {:induction false} Ones16AllOnes(shift: nat)
    ensures AllOnes(Ones16(shift))
  {
    hide AllOnes, Longer16;
    if shift > 0 {
      Ones16AllOnes(shift - 1);
      LongerAllOnes(Ones16(shift - 1));
    } else {
      NoneAllOnes();
    }
  }

  lemma NoneAllOnes()
    ensures AllOnes(0)
  {
  }

  function Power(k: nat): (p: nat)
    ensures p > 0
  {
    if k == 0 then 1 else 2 * Power(k - 1)
  }

  predicate Small(x: bv16, m: bv16) {
    m & x == x
  }

  /** The number of a counter value. */
  function Rank(x: bv16): nat
    decreases x
  {
    if x == 0 then 0 else Rank(x - 1) + 1
  }

  lemma RankStep(x: bv16, y: bv16)
    requires x != 0 && y == x - 1
    ensures Rank(x) == Rank(y) + 1
  {
  }

  predicate TopClear(x: bv16) {
    x & 0x8000 == 0
  }

  lemma TwoDown(h: bv16, g: bv16, b: bv16, a: bv16)
    requires g == h - 1 && b == h << 1 && a == b - 1
    ensures a - 1 == g << 1
  {
  }

  lemma TopStaysClear(h: bv16, g: bv16)
    requires h != 0 && TopClear(h) && g == h - 1
    ensures TopClear(g)
  {
  }

  lemma DoubleNotZero(h: bv16, b: bv16)
    requires h != 0 && TopClear(h) && b == h << 1
    ensures b != 0
  {
  }

  lemma DoubleNotOne(h: bv16, b: bv16, a: bv16)
    requires b == h << 1 && a == b - 1
    ensures a != 0
  {
  }

  lemma Less(h: bv16, g: bv16)
    requires h != 0 && g == h - 1
    ensures g < h
  {
  }

  lemma {:induction false} RankDoubles(h: bv16, b: bv16)
    requires TopClear(h) && b == h << 1
    ensures Rank(b) == 2 * Rank(h)
    decreases h
  {
    hide Rank, TopClear;
    RankZero();
    if h != 0 {
      var g, a := h - 1, b - 1;
      TwoDown(h, g, b, a);
      TopStaysClear(h, g);
      DoubleNotZero(h, b);
      DoubleNotOne(h, b, a);
      Less(h, g);
      RankStep(h, g);
      RankStep(b, a);
      RankStep(a, a - 1);
      RankDoubles(g, a - 1);
    } else {
      DoubleZero(h, b);
    }
  }

  lemma RankZero()
    ensures Rank(0) == 0
  {
  }

  lemma DoubleZero(h: bv16, b: bv16)
    requires h == 0 && b == h << 1
    ensures b == 0
  {
  }

  lemma HalfSmall(y: bv16, m: bv16, h: bv16)
    requires Small(y, Longer16(m)) && TopClear(m) && h == y >> 1
    ensures Small(h, m)
  {
  }

  lemma HalfTop(y: bv16, h: bv16)
    requires h == y >> 1
    ensures TopClear(h)
  {
  }

  /** A value is twice its half, or one more. */
  lemma HalfBack(y: bv16, h: bv16, b: bv16)
    requires h == y >> 1 && b == h << 1 && y != b
    ensures y == b | 1
  {
  }

  lemma OddStep(y: bv16, h: bv16, b: bv16)
    requires b == h << 1 && y == b | 1
    ensures y - 1 == b
  {
  }

  lemma OddNotZero(y: bv16, b: bv16)
    requires y == b | 1
    ensures y != 0
  {
  }

  lemma HalfOfMask(y: bv16, m: bv16, h: bv16)
    requires y == Longer16(m) && TopClear(m) && h == y >> 1
    ensures h == m
  {
  }

  lemma MaskOdd(y: bv16, m: bv16, h: bv16, b: bv16)
    requires y == Longer16(m) && b == h << 1
    ensures y != b
  {
  }

  function Dec(x: bv16): bv16 {
    x - 1
  }

  lemma RankDown(x: bv16)
    requires x != 0
    ensures Rank(x) == Rank(Dec(x)) + 1
  {
  }

  function Half(y: bv16): bv16 {
    y >> 1
  }

  function Twice16(h: bv16): bv16 {
    h << 1
  }

  lemma HalfIs(y: bv16) returns (h: bv16)
    ensures h == y >> 1 && h == Half(y)
  {
    h := y >> 1;
  }

  lemma TwiceIs(h: bv16) returns (b: bv16)
    ensures b == h << 1 && b == Twice16(h)
  {
    b := h << 1;
  }

  lemma HalvedSmall(y: bv16, m: bv16)
    requires Small(y, Longer16(m)) && TopClear(m)
    ensures Small(Half(y), m) && TopClear(Half(y))
  {
    hide *;
    var h := HalfIs(y);
    HalfSmall(y, m, h);
    HalfTop(y, h);
  }

  lemma HalfStep(y: bv16, h: bv16, b: bv16)
    requires h == y >> 1 && b == h << 1 && y != b
    ensures y != 0 && Dec(y) == b
  {
    HalfBack(y, h, b);
    OddStep(y, h, b);
    OddNotZero(y, b);
  }

  lemma HalvedBack(y: bv16)
    ensures var b := Twice16(Half(y)); y == b || (y != 0 && Dec(y) == b)
  {
    hide *;
    var h := HalfIs(y);
    var b := TwiceIs(h);
    if y != b {
      HalfStep(y, h, b);
    }
  }

  lemma HalvedMask(m: bv16)
    requires TopClear(m)
    ensures Half(Longer16(m)) == m && Twice16(Half(Longer16(m))) != Longer16(m)
  {
    hide *;
    var y := Longer16(m);
    var h := HalfIs(y);
    var b := TwiceIs(h);
    HalfOfMask(y, m, h);
    MaskOdd(y, m, h, b);
  }

  lemma RankTwice(h: bv16)
    requires TopClear(h)
    ensures Rank(Twice16(h)) == 2 * Rank(h)
  {
    hide *;
    var b := TwiceIs(h);
    RankDoubles(h, b);
  }

  /** The values of the counter's field are numbered below `Power(shift)`. */
  lemma {:induction false} RankBound(shift: nat, y: bv16)
    requires shift <= 15 && Small(y, Ones16(shift))
    ensures Rank(y) < Power(shift) && (y == Ones16(shift) ==> Rank(y) == Power(shift) - 1)
    decreases shift, 1
  {
    hide Rank, Small, TopClear, Longer16;
    RankZero();
    if shift > 0 {
      RankHalf(Ones16(shift - 1), y, shift);
    } else {
      SmallZero(y);
    }
  }

  lemma {:induction false} RankHalf(m: bv16, y: bv16, shift: nat)
    requires 0 < shift <= 15 && m == Ones16(shift - 1) && Small(y, Longer16(m))
    ensures Rank(y) < Power(shift) && (y == Longer16(m) ==> Rank(y) == Power(shift) - 1)
    decreases shift, 0
  {
    hide Rank, Small, TopClear, Longer16, Ones16, Half, Twice16, Dec;
    Ones16Top(shift - 1);
    HalvedSmall(y, m);
    RankBound(shift - 1, Half(y));
    RankTwice(Half(y));
    HalvedBack(y);
    HalvedMask(m);
    if y != Twice16(Half(y)) {
      RankDown(y);
    }
  }

  lemma SmallZero(y: bv16)
    requires Small(y, 0)
    ensures y == 0
  {
  }

  lemma Ones16Top(shift: nat)
    requires shift <= 15
    ensures TopClear(Ones16(shift))
  {
    hide TopClear, Longer16, Within;
    Ones16Is(shift);
    OnesWithin(shift, 15);
    Ones15(Ones(shift));
    TopOf(Ones16(shift), Ones(shift));
  }

  lemma TopOf(m: bv16, o: bv32)
    requires o == Widen(m) && Apart(o, 0x8000)
    ensures TopClear(m)
  {
  }

  function Inc(x: bv16): bv16 {
    x + 1
  }

  function Field(m: bv16, x: bv16): bv16 {
    m & x
  }

  lemma FieldSmall(m: bv16, x: bv16)
    ensures Small(Field(m, x), m)
  {
  }

  /** One more allocation counts the field up, and around at its end. */
  lemma FieldNext(m: bv16, x: bv16)
    requires AllOnes(m)
    ensures Field(m, Inc(x)) == Field(m, Inc(Field(m, x)))
  {
  }

  lemma FieldUp(m: bv16, y: bv16)
    requires AllOnes(m) && Small(y, m) && y != m
    ensures Field(m, Inc(y)) == Inc(y)
  {
  }

  lemma UpNotZero(m: bv16, y: bv16)
    requires AllOnes(m) && Small(y, m) && y != m
    ensures Inc(y) != 0
  {
  }

  lemma UpAndDown(y: bv16)
    ensures Inc(y) - 1 == y
  {
  }

  lemma FieldAround(m: bv16)
    requires AllOnes(m)
    ensures Field(m, Inc(m)) == 0
  {
  }

  lemma DecTellsApart(x: bv16, y: bv16)
    requires Dec(x) == Dec(y)
    ensures x == y
  {
  }

  lemma {:induction false} RankTellsApart(x: bv16, y: bv16)
    requires Rank(x) == Rank(y)
    ensures x == y
    decreases Rank(x)
  {
    hide Rank, Dec;
    RankZero();
    if x == 0 {
      if y != 0 { RankDown(y); }
    } else {
      RankDown(x);
      if y != 0 {
        RankDown(y);
        RankTellsApart(Dec(x), Dec(y));
        DecTellsApart(x, y);
      }
    }
  }
}
