/** Fixed-width integers of the C code: unsigned counters that wrap, and the
    signed reading of an unsigned difference. */
module Word {

  const TWO8: int := 0x100
  const TWO16: int := 0x1_0000
  const TWO31: int := 0x8000_0000
  const TWO32: int := 0x1_0000_0000

  type uint8 = x: int | 0 <= x < 0x100
  type uint16 = x: int | 0 <= x < 0x1_0000
  type uint32 = x: int | 0 <= x < 0x1_0000_0000

  function Wrap(x: int): uint32 {
    x % TWO32
  }

  /** `int diff = a - b;` for two 32-bit unsigned operands. */
  function SignedDiff(a: int, b: int): int {
    var d := Wrap(a - b);
    if d < TWO31 then d else d - TWO32
  }

  lemma WrapStep(x: int, k: int)
    ensures Wrap(Wrap(x) + k) == Wrap(x + k)
    ensures Wrap(Wrap(x) - k) == Wrap(x - k)
  {
    var q := x / TWO32;
    assert x == q * TWO32 + Wrap(x);
    WrapPeriod(Wrap(x) + k, q);
    WrapPeriod(Wrap(x) - k, q);
  }

  lemma WrapPeriod(x: int, q: int)
    ensures Wrap(x + q * TWO32) == Wrap(x)
  {
    var d := x / TWO32;
    assert x + q * TWO32 == (d + q) * TWO32 + Wrap(x);
  }

  lemma WrapMinus(x: int, y: int)
    ensures Wrap(Wrap(x) - Wrap(y)) == Wrap(x - y)
  {
    var q := y / TWO32;
    WrapStep(x, Wrap(y));
    assert x - Wrap(y) == x - y + q * TWO32;
    WrapPeriod(x - y, q);
  }

  lemma WrapSmall(x: int)
    ensures Wrap(x) == x <==> 0 <= x < TWO32
  {
  }

  /** The signed difference of two wrapped counters is the true difference
      exactly while the counters are less than half the number circle apart. */
  lemma SignedDiffExact(a: int, b: int)
    ensures SignedDiff(Wrap(a), Wrap(b)) == a - b <==> -TWO31 <= a - b < TWO31
  {
    WrapMinus(a, b);
  }

  /** Beyond that distance, and within one turn, the sign comes out wrong. */
  lemma SignedDiffFar(a: int, b: int)
    requires -TWO32 < a - b < TWO32
    ensures a - b >= TWO31 ==> SignedDiff(Wrap(a), Wrap(b)) < 0
    ensures a - b < -TWO31 ==> SignedDiff(Wrap(a), Wrap(b)) > 0
  {
    WrapMinus(a, b);
  }

  // ----- Counting in periods -----

  lemma MulOrder(a: int, b: int, p: int)
    requires a < b && p > 0
    ensures a * p + p <= b * p
    decreases b - a
  {
    assert b * p == (b - 1) * p + p;
    if a + 1 == b {
    } else {
      MulOrder(a, b - 1, p);
    }
  }

  lemma DivMod(x: int, p: int, q: int, r: int)
    requires p > 0 && x == q * p + r && 0 <= r < p
    ensures x / p == q && x % p == r
  {
    var k := x / p;
    assert x == k * p + x % p;
    if k < q {
      MulOrder(k, q, p);
    } else if q < k {
      MulOrder(q, k, p);
    }
  }

  lemma NextMod(x: int, p: int)
    requires p > 0
    ensures (x + 1) % p == if x % p + 1 == p then 0 else x % p + 1
    ensures (x + 1) / p == if x % p + 1 == p then x / p + 1 else x / p
  {
    var q, r := x / p, x % p;
    assert x == q * p + r;
    if r + 1 == p {
      assert (q + 1) * p == q * p + p;
      DivMod(x + 1, p, q + 1, 0);
    } else {
      DivMod(x + 1, p, q, r + 1);
    }
  }

  lemma ShiftMod(x: int, p: int, k: int)
    requires 0 < k <= p
    ensures (x - k) % p == (if x % p < k then x % p - k + p else x % p - k)
  {
    var q, r := x / p, x % p;
    assert x == q * p + r;
    if r < k {
      assert (q - 1) * p == q * p - p;
      DivMod(x - k, p, q - 1, r - k + p);
    } else {
      DivMod(x - k, p, q, r - k);
    }
  }
}
